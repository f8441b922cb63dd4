/**
 * Three string exercises (08-arrays-and-strings.py): a uniqueness check over
 * a 256-slot table, a permutation check by sorting, and `%20` escaping, once
 * as a string replacement and once in place on a character buffer with a
 * counting pass and a backward copy.
 *
 * The source is Python 2, whose `str` holds bytes; `IsByteString` states that
 * every character fits in one byte.
 */
module ArraysAndStrings {
  import InsertionSort

  // ---------------------------------------------------------------------------
  // characters_are_unique

  /** Every character fits in one byte, as in a Python 2 `str`. */
  predicate IsByteString(s: string)
  {
    forall i :: 0 <= i < |s| ==> s[i] as int < 256
  }

  /** No character occurs twice in s. */
  predicate Unique(s: string)
  {
    forall i, j :: 0 <= i < j < |s| ==> s[i] != s[j]
  }

  /** The character codes that occur in s. */
  ghost function CodeSet(s: string): set<int>
  {
    set i | 0 <= i < |s| :: s[i] as int
  }

  /** The codes 0 .. n-1. */
  ghost function Below(n: nat): (r: set<int>)
    ensures |r| == n
    ensures forall v :: v in r <==> 0 <= v < n
  {
    if n == 0 then {} else Below(n - 1) + {n - 1}
  }

  /** A string without repeated characters has as many codes as characters. */
  lemma {:induction false} UniqueCodeCount(s: string)
    requires Unique(s)
    ensures |CodeSet(s)| == |s|
  {
    if s != [] {
      var p := s[..|s| - 1];
      assert Unique(p);
      UniqueCodeCount(p);
      assert CodeSet(s) == CodeSet(p) + {s[|s| - 1] as int};
      assert s[|s| - 1] as int !in CodeSet(p);
    }
  }

  /** More than 256 one-byte characters must repeat one: the shortcut of the source. */
  lemma PigeonHole(s: string)
    requires IsByteString(s) && |s| > 256
    ensures !Unique(s)
  {
    if Unique(s) {
      UniqueCodeCount(s);
      assert CodeSet(s) <= Below(256);
      SubsetSize(CodeSet(s), Below(256));
    }
  }

  lemma SubsetSize(a: set<int>, b: set<int>)
    requires a <= b
    ensures |a| <= |b|
  {
    assert b == a + (b - a) && a * (b - a) == {};
  }

  /**
   * `characters_are_unique(string)`: too long a string repeats a character;
   * otherwise a 256-slot table marks each code on first sight and a second
   * sight answers False.
   */
  method CharactersAreUnique(s: string) returns (r: bool)
    requires IsByteString(s)
    ensures |s| > 256 ==> !r
    ensures r <==> Unique(s)
  {
    if |s| > 256 {
      PigeonHole(s);
      return false;
    }
    var characters := new bool[256](_ => false);
    for k := 0 to |s|
      invariant Unique(s[..k])
      invariant forall v :: 0 <= v < 256 ==> (characters[v] <==> exists i :: 0 <= i < k && s[i] as int == v)
    {
      var val := s[k] as int;
      if characters[val] {
        var i :| 0 <= i < k && s[i] as int == val;
        assert s[i] == s[k];
        return false;
      } else {
        characters[val] := true;
      }
    }
    assert s[..|s|] == s;
    return true;
  }

  /** The two assertions of the demo. */
  lemma UniqueExamples()
    ensures Unique("abcdefg")
    ensures !Unique("abcdefga")
  {
    assert "abcdefga"[0] == "abcdefga"[7];
  }

  // ---------------------------------------------------------------------------
  // is_permutation

  /** The order of characters as a three-way comparison, for `sorted`. */
  function CompareChars(a: char, b: char): (r: int)
    ensures r < 0 <==> a < b
    ensures r > 0 <==> a > b
  {
    if a < b then -1 else if a > b then 1 else 0
  }

  /** `sorted(list(s))`: the characters of s in ascending order. */
  function SortChars(s: string): (r: string)
    ensures multiset(r) == multiset(s)
    ensures forall i :: 0 < i < |r| ==> r[i - 1] <= r[i]
  {
    InsertionSort.SortPermutes(s, CompareChars);
    assert InsertionSort.IsComparator(CompareChars);
    InsertionSort.SortSorted(s, CompareChars);
    InsertionSort.Sort(s, CompareChars)
  }

  /** In an ascending string the first character is the least. */
  lemma {:induction false} FirstIsLeast(s: string, k: nat)
    requires forall i :: 0 < i < |s| ==> s[i - 1] <= s[i]
    requires k < |s|
    ensures s[0] <= s[k]
  {
    if k > 0 {
      FirstIsLeast(s, k - 1);
    }
  }

  /** Two ascending strings with the same characters start with the same character. */
  lemma AscendingFirst(a: string, b: string)
    requires forall i :: 0 < i < |a| ==> a[i - 1] <= a[i]
    requires forall i :: 0 < i < |b| ==> b[i - 1] <= b[i]
    requires multiset(a) == multiset(b) && a != []
    ensures b != [] && a[0] == b[0]
  {
    assert a[0] in multiset(b);
    var k :| 0 <= k < |b| && b[k] == a[0];
    assert b[0] in multiset(a);
    var m :| 0 <= m < |a| && a[m] == b[0];
    FirstIsLeast(a, m);
    FirstIsLeast(b, k);
  }

  /** Dropping the same first character keeps the multisets equal. */
  lemma SameTail(a: string, b: string)
    requires a != [] && b != [] && a[0] == b[0] && multiset(a) == multiset(b)
    ensures multiset(a[1..]) == multiset(b[1..])
  {
    assert a == [a[0]] + a[1..];
    assert b == [b[0]] + b[1..];
    assert multiset(a) == multiset{a[0]} + multiset(a[1..]);
    assert multiset(b) == multiset{b[0]} + multiset(b[1..]);
    forall c: char
      ensures multiset(a[1..])[c] == multiset(b[1..])[c]
    {
      assert multiset(a)[c] == multiset(b)[c];
    }
  }

  /** Two ascending strings with the same characters are equal. */
  lemma {:induction false} AscendingUnique(a: string, b: string)
    requires forall i :: 0 < i < |a| ==> a[i - 1] <= a[i]
    requires forall i :: 0 < i < |b| ==> b[i - 1] <= b[i]
    requires multiset(a) == multiset(b)
    ensures a == b
    decreases |a|
  {
    if a == [] {
      assert |b| == |multiset(b)| == 0;
    } else {
      AscendingFirst(a, b);
      SameTail(a, b);
      AscendingUnique(a[1..], b[1..]);
      assert a == [a[0]] + a[1..] && b == [b[0]] + b[1..];
    }
  }

  /** Two strings sort to the same string exactly when they hold the same characters. */
  lemma SortsAgree(a: string, b: string)
    ensures SortChars(a) == SortChars(b) <==> multiset(a) == multiset(b)
  {
    if multiset(a) == multiset(b) {
      AscendingUnique(SortChars(a), SortChars(b));
    }
  }

  /**
   * `is_permutation(a, b)`: different lengths answer False, equal strings
   * True, and otherwise the sorted characters are compared.
   */
  function IsPermutation(a: string, b: string): (r: bool)
    ensures r ==> |a| == |b|
    ensures a == b ==> r
  {
    if |a| != |b| then false
    else if a == b then true
    else SortChars(a) == SortChars(b)
  }

  /** `is_permutation` answers True exactly when the two strings hold the same characters. */
  lemma IsPermutationMeansSameCharacters(a: string, b: string)
    ensures IsPermutation(a, b) <==> multiset(a) == multiset(b)
  {
    if |a| != |b| {
      assert |multiset(a)| != |multiset(b)|;
    } else if a != b {
      SortsAgree(a, b);
    }
  }

  /** Moving the last of three characters to the front keeps the characters. */
  lemma Rotate(x: char, y: char, z: char)
    ensures multiset([x, y, z]) == multiset([z, x, y])
  {
    assert multiset([x, y, z]) == multiset{x, y, z} == multiset([z, x, y]);
  }

  /** "cab" holds the characters of "abc". */
  lemma SameLetters()
    ensures multiset("abc") == multiset("cab")
  {
    Rotate('a', 'b', 'c');
  }

  /** The three assertions of the demo. */
  lemma PermutationExamples()
    ensures IsPermutation("abc", "abc")
    ensures !IsPermutation("abc", "abcd")
    ensures IsPermutation("abc", "cab")
  {
    SameLetters();
    IsPermutationMeansSameCharacters("abc", "cab");
  }

  // ---------------------------------------------------------------------------
  // escape_spaces_regexp and escape_spaces

  /** The number of spaces in s. */
  function Spaces(s: string): nat
  {
    if s == [] then 0 else (if s[0] == ' ' then 1 else 0) + Spaces(s[1..])
  }

  /** What one character becomes: a space `%20`, anything else itself. */
  function EscapeChar(c: char): string
  {
    if c == ' ' then "%20" else [c]
  }

  /**
   * `escape_spaces_regexp(string, strlen)`: `string.replace(' ', '%20')`.
   * Every space grows into three characters and none is left; a string
   * without spaces comes back unchanged.
   */
  function EscapeSpacesRegexp(s: string): (r: string)
    ensures |r| == |s| + 2 * Spaces(s)
  {
    if s == [] then [] else EscapeChar(s[0]) + EscapeSpacesRegexp(s[1..])
  }

  /** No space is left after escaping. */
  lemma {:induction false} EscapedHasNoSpace(s: string)
    ensures forall i :: 0 <= i < |EscapeSpacesRegexp(s)| ==> EscapeSpacesRegexp(s)[i] != ' '
  {
    if s != [] {
      EscapedHasNoSpace(s[1..]);
      var c, r := EscapeChar(s[0]), EscapeSpacesRegexp(s[1..]);
      assert EscapeSpacesRegexp(s) == c + r;
      assert forall i :: 0 <= i < |c| ==> c[i] != ' ';
    }
  }

  /** A string without spaces comes back unchanged. */
  lemma {:induction false} EscapeWithoutSpaces(s: string)
    requires Spaces(s) == 0
    ensures EscapeSpacesRegexp(s) == s
  {
    if s != [] {
      EscapeWithoutSpaces(s[1..]);
      assert s == [s[0]] + s[1..];
    }
  }

  lemma {:induction false} SpacesAppend(a: string, b: string)
    ensures Spaces(a + b) == Spaces(a) + Spaces(b)
  {
    if a == [] {
      assert a + b == b;
    } else {
      assert (a + b)[0] == a[0] && (a + b)[1..] == a[1..] + b;
      SpacesAppend(a[1..], b);
    }
  }

  lemma {:induction false} EscapeAppend(a: string, b: string)
    ensures EscapeSpacesRegexp(a + b) == EscapeSpacesRegexp(a) + EscapeSpacesRegexp(b)
  {
    if a == [] {
      assert a + b == b;
    } else {
      assert (a + b)[0] == a[0] && (a + b)[1..] == a[1..] + b;
      EscapeAppend(a[1..], b);
    }
  }

  /** A string without a space has no spaces to count. */
  lemma {:induction false} SpaceFree(s: string)
    requires forall i :: 0 <= i < |s| ==> s[i] != ' '
    ensures Spaces(s) == 0
  {
    if s != [] {
      SpaceFree(s[1..]);
    }
  }

  /** A string without a space comes back unchanged. */
  lemma SpaceFreeUnchanged(s: string)
    requires forall i :: 0 <= i < |s| ==> s[i] != ' '
    ensures EscapeSpacesRegexp(s) == s
  {
    SpaceFree(s);
    EscapeWithoutSpaces(s);
  }

  /** The demo's strings, cut at the spaces. */
  lemma DemoText()
    ensures "Hello, the World!" == "Hello," + [' '] + "the" + [' '] + "World!"
    ensures "Hello,%20the%20World!" == "Hello," + "%20" + "the" + "%20" + "World!"
  {
  }

  /** A lone space escapes to `%20`. */
  lemma EscapeSpace()
    ensures EscapeSpacesRegexp([' ']) == "%20"
  {
    assert [' '][1..] == [];
  }

  /** Three space-free words joined by two spaces escape to the words joined by two `%20`. */
  lemma EscapeTwoSpaces(a: string, b: string, c: string)
    requires forall i :: 0 <= i < |a| ==> a[i] != ' '
    requires forall i :: 0 <= i < |b| ==> b[i] != ' '
    requires forall i :: 0 <= i < |c| ==> c[i] != ' '
    ensures EscapeSpacesRegexp(a + [' '] + b + [' '] + c) == a + "%20" + b + "%20" + c
  {
    var sp := [' '];
    SpaceFreeUnchanged(a);
    SpaceFreeUnchanged(b);
    SpaceFreeUnchanged(c);
    EscapeSpace();
    EscapeAppend(a, sp);
    assert EscapeSpacesRegexp(a + sp) == a + "%20";
    EscapeAppend(a + sp, b);
    assert EscapeSpacesRegexp(a + sp + b) == a + "%20" + b;
    EscapeAppend(a + sp + b, sp);
    assert EscapeSpacesRegexp(a + sp + b + sp) == a + "%20" + b + "%20";
    EscapeAppend(a + sp + b + sp, c);
  }

  /** Three space-free words joined by two spaces hold two spaces. */
  lemma TwoSpaces(a: string, b: string, c: string)
    requires forall i :: 0 <= i < |a| ==> a[i] != ' '
    requires forall i :: 0 <= i < |b| ==> b[i] != ' '
    requires forall i :: 0 <= i < |c| ==> c[i] != ' '
    ensures Spaces(a + [' '] + b + [' '] + c) == 2
  {
    var sp := [' '];
    SpaceFree(a);
    SpaceFree(b);
    SpaceFree(c);
    assert Spaces(sp) == 1 by {
      assert sp[1..] == [];
    }
    SpacesAppend(a, sp);
    SpacesAppend(a + sp, b);
    SpacesAppend(a + sp + b, sp);
    SpacesAppend(a + sp + b + sp, c);
  }

  /** The assertion of the demo. */
  lemma RegexpExample()
    ensures Spaces("Hello, the World!") == 2
    ensures EscapeSpacesRegexp("Hello, the World!") == "Hello,%20the%20World!"
  {
    DemoText();
    EscapeTwoSpaces("Hello,", "the", "World!");
    TwoSpaces("Hello,", "the", "World!");
  }

  /** Escaping a string that starts with c starts with c escaped. */
  lemma EscapeCons(c: char, post: string)
    ensures EscapeSpacesRegexp([c] + post) == EscapeChar(c) + EscapeSpacesRegexp(post)
  {
    var t := [c] + post;
    assert t[0] == c && t[1..] == post;
  }

  /** The spaces among the first i characters of s. */
  function SpacesBefore(s: string, i: nat): nat
    requires i <= |s|
  {
    if i == 0 then 0 else SpacesBefore(s, i - 1) + (if s[i - 1] == ' ' then 1 else 0)
  }

  /** The characters of s from i on, escaped. */
  function EscapeFrom(s: string, i: nat): string
    requires i <= |s|
    decreases |s| - i
  {
    if i == |s| then [] else EscapeChar(s[i]) + EscapeFrom(s, i + 1)
  }

  lemma {:induction false} SpacesBeforeAll(s: string, i: nat)
    requires i <= |s|
    ensures SpacesBefore(s, i) == Spaces(s[..i])
  {
    if i > 0 {
      SpacesBeforeAll(s, i - 1);
      assert s[..i] == s[..i - 1] + [s[i - 1]];
      SpacesAppend(s[..i - 1], [s[i - 1]]);
    }
  }

  lemma {:induction false} EscapeFromSuffix(s: string, i: nat)
    requires i <= |s|
    ensures EscapeFrom(s, i) == EscapeSpacesRegexp(s[i..])
    decreases |s| - i
  {
    if i < |s| {
      EscapeFromSuffix(s, i + 1);
      EscapeCons(s[i], s[i + 1..]);
      assert s[i..] == [s[i]] + s[i + 1..];
    }
  }

  /**
   * One step of the backward copy: the character in cell i, escaped, is
   * written into the cells just below n; the new lower end is returned.
   */
  method WriteEscaped(buf: array<char>, i: nat, n: nat) returns (m: nat)
    requires i < n <= buf.Length && (buf[i] == ' ' ==> i + 3 <= n)
    modifies buf
    ensures m + |EscapeChar(old(buf[i]))| == n && i <= m
    ensures forall j :: 0 <= j < n - m ==> buf[m + j] == EscapeChar(old(buf[i]))[j]
    ensures forall k :: 0 <= k < buf.Length && !(m <= k < n) ==> buf[k] == old(buf[k])
  {
    m := n - 1;
    if buf[i] == ' ' {
      buf[m - 2] := '%';
      buf[m - 1] := '2';
      buf[m] := '0';
      m := m - 2;
    } else {
      buf[m] := buf[i];
    }
  }

  /** The first pass of `escape_spaces`: count the spaces in the first strlen cells. */
  method CountSpaces(buf: array<char>, strlen: nat) returns (count: nat)
    requires strlen <= buf.Length
    ensures count == Spaces(buf[..strlen])
  {
    count := 0;
    for k := 0 to strlen
      invariant count == Spaces(buf[..k])
    {
      assert buf[..k + 1] == buf[..k] + [buf[k]];
      SpacesAppend(buf[..k], [buf[k]]);
      if buf[k] == ' ' {
        count := count + 1;
      }
    }
  }

  /**
   * The state of the backward copy before the character at i - 1 is moved:
   * the cells from n to total hold the characters from i on, escaped; the
   * cells below i still hold the original characters; the cells from total on
   * are untouched.
   */
  ghost predicate Copying(buf: array<char>, s: string, orig: seq<char>, total: nat, i: nat, n: nat)
    reads buf
  {
    && i <= |s| && total <= buf.Length == |orig|
    && n == i + 2 * SpacesBefore(s, i)
    && n + |EscapeFrom(s, i)| == total
    && (forall j :: 0 <= j < |EscapeFrom(s, i)| ==> buf[n + j] == EscapeFrom(s, i)[j])
    && (forall k :: 0 <= k < i ==> buf[k] == s[k])
    && (forall k :: total <= k < buf.Length ==> buf[k] == orig[k])
  }

  /** One iteration of the backward copy keeps `Copying`, one character further down. */
  method CopyStep(buf: array<char>, ghost s: string, ghost orig: seq<char>, ghost total: nat, i: nat, n: nat)
    returns (m: nat)
    requires i < |s| && Copying(buf, s, orig, total, i + 1, n)
    modifies buf
    ensures Copying(buf, s, orig, total, i, m)
  {
    ghost var c := EscapeChar(s[i]);
    m := WriteEscaped(buf, i, n);
    forall j | 0 <= j < |EscapeFrom(s, i)|
      ensures buf[m + j] == EscapeFrom(s, i)[j]
    {
      if j < |c| {
        assert buf[m + j] == c[j];
      } else {
        assert buf[n + (j - |c|)] == EscapeFrom(s, i + 1)[j - |c|];
      }
    }
  }

  /**
   * The second pass of `escape_spaces`: walking back from strlen - 1, each
   * character is written, escaped, just below the part already written, which
   * ends at total. The copy never writes below the cell it reads, so no unread
   * character is lost.
   */
  method CopyBackward(buf: array<char>, strlen: nat, total: nat, ghost s: string)
    requires strlen <= buf.Length && s == buf[..strlen]
    requires total == strlen + 2 * Spaces(s) <= buf.Length
    modifies buf
    ensures |EscapeSpacesRegexp(s)| == total
    ensures forall k :: 0 <= k < total ==> buf[k] == EscapeSpacesRegexp(s)[k]
    ensures forall k :: total <= k < buf.Length ==> buf[k] == old(buf[k])
  {
    SpacesBeforeAll(s, strlen);
    EscapeFromSuffix(s, 0);
    assert s[..strlen] == s && s[0..] == s;
    ghost var orig := buf[..];
    var newStrlen := total;
    for i := strlen downto 0
      invariant Copying(buf, s, orig, total, i, newStrlen)
    {
      newStrlen := CopyStep(buf, s, orig, total, i, newStrlen);
    }
    assert forall k :: 0 <= k < total ==> buf[0 + k] == EscapeFrom(s, 0)[k];
  }

  /**
   * `escape_spaces(string, strlen)`: the first strlen cells, escaped, fill the
   * first strlen + 2·spaces cells of the buffer; the cells after them keep
   * their contents, and the same buffer is returned. Without a space the
   * buffer is left as it is.
   */
  method EscapeSpaces(buf: array<char>, strlen: nat) returns (r: array<char>)
    requires strlen <= buf.Length && strlen + 2 * Spaces(buf[..strlen]) <= buf.Length
    modifies buf
    ensures r == buf
    ensures var n := strlen + 2 * Spaces(old(buf[..strlen]));
      && buf[..n] == EscapeSpacesRegexp(old(buf[..strlen]))
      && buf[n..] == old(buf[n..])
  {
    ghost var s := buf[..strlen];
    var spacesCount := CountSpaces(buf, strlen);
    var newStrlen := strlen + 2 * spacesCount;
    if newStrlen != strlen {
      CopyBackward(buf, strlen, newStrlen, s);
    } else {
      EscapeWithoutSpaces(s);
    }
    return buf;
  }



  /** The demo's buffer: the 17-character string followed by eight spaces of room. */
  method DemoBuffer() returns (buf: array<char>)
    ensures fresh(buf) && buf.Length == 25
    ensures buf[..17] == "Hello, the World!" && buf[21..] == "    "
  {
    buf := new char[25](i requires 0 <= i < 25 => if i < 17 then "Hello, the World!"[i] else ' ');
    assert buf[..17] == "Hello, the World!";
    assert buf[21..] == "    ";
  }

  /** Escaping the demo's buffer in place. */
  method EscapeDemoBuffer(buf: array<char>)
    requires buf.Length == 25 && buf[..17] == "Hello, the World!" && buf[21..] == "    "
    modifies buf
    ensures buf[..21] == "Hello,%20the%20World!" && buf[21..] == "    "
  {
    RegexpExample();
    var a := EscapeSpaces(buf, 17);
  }

  /** The demo: escaping in place leaves the escaped string and the four unused cells. */
  method EscapeSpacesExample() returns (r: string)
    ensures r == "Hello,%20the%20World!    "
  {
    var buf := DemoBuffer();
    EscapeDemoBuffer(buf);
    r := buf[..];
    assert r == buf[..21] + buf[21..];
    DemoText();
  }
}
