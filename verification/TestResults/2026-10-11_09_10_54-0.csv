TestResult.DisplayName,TestResult.Outcome,TestResult.Duration,TestResult.ResourceCount,RandomSeed
Pipeline.NamingTheTagIsNotModified (correctness),Passed,00:00:00.1024976,347344,2
Pipeline.NamingTheTagIsNotModified (well-formedness),Passed,00:00:00.0799421,54814,2
