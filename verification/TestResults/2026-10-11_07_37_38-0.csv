TestResult.DisplayName,TestResult.Outcome,TestResult.Duration,TestResult.ResourceCount,RandomSeed
AdminPanel.DateTextNames (correctness),Passed,00:00:00.1685031,205306,0
AdminPanel.DateTextIsDay (correctness),Passed,00:00:00.1349563,78098,0
