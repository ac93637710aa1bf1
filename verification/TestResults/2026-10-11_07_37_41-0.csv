TestResult.DisplayName,TestResult.Outcome,TestResult.Duration,TestResult.ResourceCount,RandomSeed
AdminPanel.DateTextNames (correctness),Failed,00:00:03.6103259,2037112,1
AdminPanel.DateTextIsDay (correctness),Passed,00:00:00.1025929,78064,1
