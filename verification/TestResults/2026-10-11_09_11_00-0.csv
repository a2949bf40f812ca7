TestResult.DisplayName,TestResult.Outcome,TestResult.Duration,TestResult.ResourceCount,RandomSeed
Pipeline.NamingTheTagIsNotModified (correctness),Passed,00:00:00.1229967,285267,4
Pipeline.NamingTheTagIsNotModified (well-formedness),Passed,00:00:00.0964773,54888,4
