TestResult.DisplayName,TestResult.Outcome,TestResult.Duration,TestResult.ResourceCount,RandomSeed
BstArena.BinarySearchTree.SpliceMinimum (correctness),Passed,00:00:00.2860494,1664933,0
BstArena.BinarySearchTree.DeleteTwoChildren (correctness),Passed,00:00:00.2127527,897959,0
BstArena.TransplantWithin (correctness),Passed,00:00:00.1744016,854882,0
BstArena.TwoChildrenLinked (correctness),Passed,00:00:00.1689763,796728,0
BstArena.BinarySearchTree.Delete (correctness),Passed,00:00:00.1591639,514272,0
BstArena.BinarySearchTree.TreeInsert (correctness),Passed,00:00:00.1587495,861202,0
BstArena.ReplaceRight (correctness),Passed,00:00:00.0946384,367017,0
BstArena.TwoChildrenWithin (correctness),Passed,00:00:00.0896428,388031,0
BstArena.SpliceLinked (correctness),Passed,00:00:00.0824709,269077,0
BstArena.Linked (well-formedness),Passed,00:00:00.0815110,26189,0
BstArena.TransplantLinked (correctness),Passed,00:00:00.0781347,249970,0
BstArena.HangRight (correctness),Passed,00:00:00.0757042,291866,0
BstArena.ReplaceLeft (correctness),Passed,00:00:00.0737895,295674,0
BstArena.HangLeft (correctness),Passed,00:00:00.0701922,263575,0
BstArena.ReplaceLinked (correctness),Passed,00:00:00.0680655,146552,0
BstArena.Closed (well-formedness),Passed,00:00:00.0667375,19446,0
BstArena.BinarySearchTree.NodeInsert (correctness),Passed,00:00:00.0654705,251215,0
BstArena.BinarySearchTree.TreeSuccessor (correctness),Passed,00:00:00.0650324,197665,0
BstArena.TwoChildrenShape (correctness),Passed,00:00:00.0628223,214128,0
BstArena.BinarySearchTree.Insert (correctness),Passed,00:00:00.0513809,174109,0
BstArena.BinarySearchTree.NewNode (correctness),Passed,00:00:00.0480345,149045,0
BstArena.BinarySearchTree._ctor (correctness),Passed,00:00:00.0464095,76179,0
BstArena.InsertLinked (correctness),Passed,00:00:00.0423218,101133,0
BstArena.TransplantCells (well-formedness),Passed,00:00:00.0395892,272308,0
BstArena.BinarySearchTree.TreeMaximum (correctness),Passed,00:00:00.0380995,105563,0
BstArena.BinarySearchTree.TreeSearch (correctness),Passed,00:00:00.0378869,126465,0
BstArena.TwoChildrenLinked (well-formedness),Passed,00:00:00.0373347,79320,0
BstArena.Reparent (correctness),Passed,00:00:00.0345447,150227,0
BstArena.HangRight (well-formedness),Passed,00:00:00.0325195,65887,0
BstArena.AdjacentLinked (correctness),Passed,00:00:00.0322004,84724,0
BstArena.BinarySearchTree.Transplant (correctness),Passed,00:00:00.0305515,86498,0
BstArena.BinarySearchTree.Valid (well-formedness),Passed,00:00:00.0301568,57484,0
BstArena.TwoChildrenFacts (correctness),Passed,00:00:00.0300280,107126,0
BstArena.BinarySearchTree.TreeMinimum (correctness),Passed,00:00:00.0295458,105494,0
BstArena.LinkedFind (correctness),Passed,00:00:00.0293205,99484,0
BstArena.AdoptedByParent (correctness),Passed,00:00:00.0291132,143857,0
BstArena.BinarySearchTree.Insert (well-formedness),Passed,00:00:00.0268846,67888,0
BstArena.BinarySearchTree.DeleteTwoChildren (well-formedness),Passed,00:00:00.0266410,70126,0
BstArena.TwoChildrenShape (well-formedness),Passed,00:00:00.0265878,81297,0
BstArena.ReplaceLeft (well-formedness),Passed,00:00:00.0263172,52382,0
BstArena.HangLeft (well-formedness),Passed,00:00:00.0260825,65943,0
BstArena.SpliceLinked (well-formedness),Passed,00:00:00.0259178,93951,0
BstArena.AdoptLinked (correctness),Passed,00:00:00.0253853,104021,0
BstArena.ReplaceRight (well-formedness),Passed,00:00:00.0248321,53433,0
BstArena.BinarySearchTree.TreeMaximum (well-formedness),Passed,00:00:00.0240496,64037,0
BstArena.LinkedFrame (correctness),Passed,00:00:00.0234270,75110,0
BstArena.Adopt (well-formedness),Passed,00:00:00.0223901,110722,0
BstArena.TransplantLinked (well-formedness),Passed,00:00:00.0220688,72426,0
BstArena.TwoChildrenWithin (well-formedness),Passed,00:00:00.0216417,79868,0
BstArena.BinarySearchTree.TreeInsert (well-formedness),Passed,00:00:00.0212441,69992,0
BstArena.ReplaceLinked (well-formedness),Passed,00:00:00.0212433,44713,0
BstArena.AgreeAdopt (well-formedness),Passed,00:00:00.0211373,28985,0
BstArena.TwoChildrenFacts (well-formedness),Passed,00:00:00.0209783,59150,0
BstArena.BinarySearchTree.NodeInsert (well-formedness),Passed,00:00:00.0203072,56910,0
BstArena.AdjacentLinked (well-formedness),Passed,00:00:00.0200275,42942,0
BstArena.BinarySearchTree.SpliceMinimum (well-formedness),Passed,00:00:00.0198879,81196,0
BstArena.InsertLinked (well-formedness),Passed,00:00:00.0195506,54728,0
BstArena.TransplantWithin (well-formedness),Passed,00:00:00.0189743,57281,0
BstArena.BinarySearchTree.NewNode (well-formedness),Passed,00:00:00.0188976,55768,0
BstArena.Swapped (well-formedness),Passed,00:00:00.0181303,41520,0
BstArena.AdoptLinked (well-formedness),Passed,00:00:00.0172679,42123,0
BstArena.Rest (well-formedness),Passed,00:00:00.0160872,22222,0
BstArena.AgreeChain (correctness),Passed,00:00:00.0160523,20727,0
BstArena.LinkedFind (well-formedness),Passed,00:00:00.0156606,37277,0
BstArena.BinarySearchTree.TreeMinimum (well-formedness),Passed,00:00:00.0153115,64037,0
BstArena.Spliced (well-formedness),Passed,00:00:00.0150715,51251,0
BstArena.WithinWider (correctness),Passed,00:00:00.0148802,19219,0
BstArena.WithinChain (correctness),Passed,00:00:00.0142717,22178,0
BstArena.BinarySearchTree.Delete (well-formedness),Passed,00:00:00.0134827,63520,0
BstArena.AdoptedByParent (well-formedness),Passed,00:00:00.0131341,45426,0
BstArena.AgreeTransplant (well-formedness),Passed,00:00:00.0126382,34671,0
BstArena.AgreeAdopt (correctness),Passed,00:00:00.0122909,36785,0
BstArena.AgreeTransplant (correctness),Passed,00:00:00.0121642,40410,0
BstArena.Link (well-formedness),Passed,00:00:00.0119778,26267,0
BstArena.LinkedInRange (correctness),Passed,00:00:00.0114372,41474,0
BstArena.Agree (well-formedness),Passed,00:00:00.0114001,15025,0
BstArena.BinarySearchTree.Transplant (well-formedness),Passed,00:00:00.0104621,40687,0
BstArena.Reparent (well-formedness),Passed,00:00:00.0081499,29291,0
BstArena.Within (well-formedness),Passed,00:00:00.0080702,14977,0
