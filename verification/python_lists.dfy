/** Facts about Python's built-in lists that several exercises rely on. */
module PythonLists {
  /** The length of `[x] * n`: n copies for a positive n, none otherwise. */
  function Repeats(n: int): (r: nat)
    ensures n <= 0 ==> r == 0
    ensures n >= 0 ==> r == n
  {
    if n < 0 then 0 else n
  }
}
