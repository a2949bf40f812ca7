TestResult.DisplayName,TestResult.Outcome,TestResult.Duration,TestResult.ResourceCount,RandomSeed
Pipeline.NamingTheTagIsNotModified (correctness),Passed,00:00:00.1063034,215536,0
Pipeline.NamingTheTagIsNotModified (well-formedness),Passed,00:00:00.0918214,54878,0
