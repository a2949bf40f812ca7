TestResult.DisplayName,TestResult.Outcome,TestResult.Duration,TestResult.ResourceCount,RandomSeed
Pipeline.NamingTheTagIsNotModified (correctness),Passed,00:00:00.1392771,325066,3
Pipeline.NamingTheTagIsNotModified (well-formedness),Passed,00:00:00.0834687,54812,3
