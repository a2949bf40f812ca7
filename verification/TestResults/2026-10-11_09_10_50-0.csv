TestResult.DisplayName,TestResult.Outcome,TestResult.Duration,TestResult.ResourceCount,RandomSeed
Pipeline.NamingTheTagIsNotModified (correctness),Passed,00:00:00.1917439,1759733,1
Pipeline.NamingTheTagIsNotModified (well-formedness),Passed,00:00:00.0882121,54876,1
