/**
 * File names and paths, and the small pieces of Python's `str` and
 * `pathlib` behaviour that tasks/task01.py relies on: `str.lower`,
 * `str.rfind`, `str.lstrip` and `PurePath.suffix`.
 */
module PathNames {

  /** One component of a path (a file or directory name). */
  type Name = seq<char>

  /** A path as the sequence of its components; `p + [n]` is pathlib's `p / n`. */
  type Path = seq<Name>

  /** The final component of a path: pathlib's `PurePath.name`. */
  function Last(p: Path): Name
    requires |p| > 0
  {
    p[|p| - 1]
  }

  predicate IsUpper(c: char) {
    'A' <= c <= 'Z'
  }

  /** ASCII case folding of one character. */
  function LowerChar(c: char): char {
    if IsUpper(c) then (c as int + 32) as char else c
  }

  /** `str.lower()`, restricted to ASCII case folding. */
  function Lower(s: string): string {
    seq(|s|, i requires 0 <= i < |s| => LowerChar(s[i]))
  }

  /** Lowercasing leaves no upper-case letter and does not move or create dots. */
  lemma LowerFacts(s: string)
    ensures |Lower(s)| == |s|
    ensures forall i :: 0 <= i < |s| ==> !IsUpper(Lower(s)[i])
    ensures forall i :: 0 <= i < |s| ==> (Lower(s)[i] == '.' <==> s[i] == '.')
  {
  }

  /** Lowercasing twice is lowercasing once. */
  lemma LowerIdempotent(s: string)
    ensures Lower(Lower(s)) == Lower(s)
  {
  }

  /** `s.rfind(c)`: the index of the last `c` in `s`, or -1 when there is none. */
  function RFind(s: string, c: char): (r: int)
    ensures -1 <= r < |s|
    ensures r >= 0 ==> s[r] == c
    ensures forall j :: r < j < |s| ==> s[j] != c
  {
    if s == [] then -1
    else if s[|s| - 1] == c then |s| - 1
    else RFind(s[..|s| - 1], c)
  }

  /** `s.lstrip(c)`: `s` without its leading run of `c`. */
  function LStrip(s: string, c: char): (r: string)
    ensures |r| <= |s| && r == s[|s| - |r|..]
    ensures r == [] || r[0] != c
    ensures forall j :: 0 <= j < |s| - |r| ==> s[j] == c
  {
    if s != [] && s[0] == c then LStrip(s[1..], c) else s
  }

  /**
   * `PurePath.suffix`: the name from its last dot to its end, when that dot
   * is neither the first nor the last character of the name; otherwise empty.
   * A non-empty suffix is a dot followed by at least one character and no
   * further dot, and a non-empty stem stands before it.
   */
  function Suffix(name: Name): (r: string)
    ensures r == [] || (|r| >= 2 && r[0] == '.' && '.' !in r[1..])
    ensures r == [] || (|r| < |name| && r == name[|name| - |r|..])
  {
    var i := RFind(name, '.');
    if 0 < i < |name| - 1 then name[i..] else []
  }

  /** A name made of a non-empty stem, a dot and a dot-free extension has exactly that extension as suffix. */
  lemma SuffixOfSplit(stem: Name, ext: string)
    requires |stem| > 0 && |ext| > 0 && '.' !in ext
    ensures Suffix(stem + ['.'] + ext) == ['.'] + ext
  {
    var name := stem + ['.'] + ext;
    var i := RFind(name, '.');
    assert name[|stem|] == '.';
    forall j | |stem| < j < |name|
      ensures name[j] != '.'
    {
      assert name[j] == ext[j - |stem| - 1];
    }
    assert i == |stem|;
    assert name[i..] == ['.'] + ext;
  }

  /**
   * The suffix is empty exactly when the name is empty, ends with a dot, or
   * has no dot after its first character (`README`, `.gitignore`).
   */
  lemma SuffixEmptyIff(name: Name)
    ensures Suffix(name) == [] <==>
      (|name| == 0 || name[|name| - 1] == '.' || '.' !in name[1..])
  {
    var i := RFind(name, '.');
    if |name| > 0 && name[|name| - 1] != '.' && '.' in name[1..] {
      var k :| 0 <= k < |name[1..]| && name[1..][k] == '.';
      assert name[k + 1] == '.';
      assert 0 < i;
    }
    if |name| > 0 && 0 < i < |name| - 1 {
      assert name[1..][i - 1] == '.';
    }
  }

  /** The suffix commutes with lowercasing, because a dot is not a letter. */
  lemma SuffixLower(name: Name)
    ensures Suffix(Lower(name)) == Lower(Suffix(name))
  {
    var i := RFind(name, '.');
    RFindLower(name);
    assert |Lower(name)| == |name|;
    if 0 < i < |name| - 1 {
      LowerDrop(name, i);
    } else {
      assert Lower([]) == [];
    }
  }

  lemma LowerDrop(s: string, i: nat)
    requires i <= |s|
    ensures Lower(s)[i..] == Lower(s[i..])
  {
  }

  lemma {:induction false} RFindLower(s: string)
    ensures RFind(Lower(s), '.') == RFind(s, '.')
  {
    LowerFacts(s);
    if s != [] {
      assert Lower(s)[..|s| - 1] == Lower(s[..|s| - 1]);
      RFindLower(s[..|s| - 1]);
    }
  }

  /** Stripping leading dots commutes with lowercasing. */
  lemma {:induction false} LStripLower(s: string)
    ensures LStrip(Lower(s), '.') == Lower(LStrip(s, '.'))
  {
    LowerFacts(s);
    if s != [] {
      assert Lower(s)[1..] == Lower(s[1..]);
      LStripLower(s[1..]);
    }
  }
}
