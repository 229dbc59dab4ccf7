/**
 * Character and string helpers shared by the sanitiser and the image-URL
 * extractor: Python's notion of whitespace, the case-insensitive comparison
 * that `re.IGNORECASE` performs on a pattern's letters, `str.lstrip`,
 * `str.rstrip`, `str.strip`, slicing with Python's clamping, and a
 * left-to-right character search.
 */
module Text {

  /** A character that `\s` in a `str` pattern and `str.isspace()` accept. */
  predicate IsSpace(c: char) {
    var n := c as int;
    (0x09 <= n <= 0x0D) || (0x1C <= n <= 0x20) || n == 0x85 || n == 0xA0 || n == 0x1680
    || (0x2000 <= n <= 0x200A) || n == 0x2028 || n == 0x2029 || n == 0x202F
    || n == 0x205F || n == 0x3000
  }

  /**
   * The simple lower-case mapping, restricted to the characters that map onto
   * an ASCII letter (the only letters the patterns of this program contain).
   */
  function FoldCase(c: char): (r: char)
    ensures 'A' <= c <= 'Z' ==> r as int == c as int + 32
    ensures c == '\U{0130}' ==> r == 'i'
    ensures c == '\U{212A}' ==> r == 'k'
    ensures r != c ==> 'a' <= r <= 'z'
    ensures !('A' <= c <= 'Z') && c != '\U{0130}' && c != '\U{212A}' ==> r == c
  {
    if 'A' <= c <= 'Z' then (c as int + 32) as char
    else if c == '\U{0130}' then 'i'   // LATIN CAPITAL LETTER I WITH DOT ABOVE
    else if c == '\U{212A}' then 'k'   // KELVIN SIGN
    else c
  }

  /**
   * Whether text character `c` matches pattern character `p` (written in lower
   * case) under `re.IGNORECASE`: equal after folding, or one of the extra
   * equivalences of Python's regular-expression compiler (dotless i, long s).
   */
  predicate MatchesIgnoreCase(c: char, p: char) {
    FoldCase(c) == p
    || (p == 'i' && c == '\U{0131}')   // LATIN SMALL LETTER DOTLESS I
    || (p == 's' && c == '\U{017F}')   // LATIN SMALL LETTER LONG S
  }

  /** The literal `lit` (lower case) occurs case-insensitively in `s` at `at`. */
  predicate LiteralAt(s: string, at: nat, lit: string)
    decreases |lit|
  {
    at + |lit| <= |s|
    && (lit == [] || (MatchesIgnoreCase(s[at], lit[0]) && LiteralAt(s, at + 1, lit[1..])))
  }

  /** `s` begins with `prefix`, compared exactly (`str.startswith`). */
  predicate StartsWith(s: string, prefix: string) {
    |prefix| <= |s| && s[..|prefix|] == prefix
  }

  /** `s` ends with `suffix`, compared exactly (`str.endswith`). */
  predicate EndsWith(s: string, suffix: string) {
    |suffix| <= |s| && s[|s| - |suffix|..] == suffix
  }

  /** `u` occurs in `s` starting at index `i`. */
  predicate OccursAt(u: string, s: string, i: nat) {
    i + |u| <= |s| && s[i..i + |u|] == u
  }

  /** `u` occurs contiguously in `s`. */
  predicate IsSubstring(u: string, s: string) {
    exists i: nat | i <= |s| :: OccursAt(u, s, i)
  }

  /** Python's `s[:n]` for `n >= 0`: at most the first `n` characters. */
  function Prefix<T>(s: seq<T>, n: nat): (r: seq<T>)
    ensures |r| <= n && |r| <= |s|
    ensures |r| == n || r == s
    ensures r == s[..|r|]
  {
    if |s| <= n then s else s[..n]
  }

  /**
   * The first index at or after `from` whose character is in `cs`, or `|s|`
   * when there is none.
   */
  function IndexOfAny(s: string, cs: set<char>, from: nat): (k: nat)
    requires from <= |s|
    ensures from <= k <= |s|
    ensures k < |s| ==> s[k] in cs
    decreases |s| - from
  {
    if from == |s| || s[from] in cs then from else IndexOfAny(s, cs, from + 1)
  }

  /** No character of `cs` occurs before the index `IndexOfAny` finds. */
  lemma {:induction false} IndexOfAnyIsFirst(s: string, cs: set<char>, from: nat, i: nat)
    requires from <= |s| && from <= i < IndexOfAny(s, cs, from)
    ensures s[i] !in cs
    decreases |s| - from
  {
    if from < i {
      IndexOfAnyIsFirst(s, cs, from + 1, i);
    }
  }

  /** The search finds `e` when `e` is the first position from `from` holding a character of `cs`. */
  lemma {:induction false} IndexOfAnyFinds(s: string, cs: set<char>, from: nat, e: nat)
    requires from <= e < |s| && s[e] in cs
    requires forall i :: from <= i < e ==> s[i] !in cs
    ensures IndexOfAny(s, cs, from) == e
    decreases e - from
  {
    if from < e {
      IndexOfAnyFinds(s, cs, from + 1, e);
    }
  }

  /** `str.lstrip()`: drops the leading whitespace. */
  function TrimStart(s: string): (r: string)
    ensures |r| <= |s| && r == s[|s| - |r|..]
    ensures forall i :: 0 <= i < |s| - |r| ==> IsSpace(s[i])
    ensures r == [] || !IsSpace(r[0])
  {
    if s != [] && IsSpace(s[0]) then TrimStart(s[1..]) else s
  }

  /** `str.rstrip()`: drops the trailing whitespace. */
  function TrimEnd(s: string): (r: string)
    ensures |r| <= |s| && r == s[..|r|]
    ensures forall i :: |r| <= i < |s| ==> IsSpace(s[i])
    ensures r == [] || !IsSpace(r[|r| - 1])
  {
    if s != [] && IsSpace(s[|s| - 1]) then TrimEnd(s[..|s| - 1]) else s
  }

  /** How many whitespace characters `str.lstrip()` drops from `s`. */
  function LeadingSpace(s: string): (n: nat)
    ensures n <= |s|
  {
    |s| - |TrimStart(s)|
  }

  /**
   * `str.strip()`: the slice of `s` that starts after its leading whitespace
   * and stops before its trailing whitespace; it neither starts nor ends with
   * whitespace.
   */
  function Strip(s: string): (r: string)
    ensures LeadingSpace(s) + |r| <= |s|
    ensures r == s[LeadingSpace(s)..LeadingSpace(s) + |r|]
    ensures r == [] || (!IsSpace(r[0]) && !IsSpace(r[|r| - 1]))
  {
    var t := TrimStart(s);
    var r := TrimEnd(t);
    assert t == s[|s| - |t|..];
    r
  }

  /** `str.strip()` drops only whitespace: everything outside the slice it keeps is whitespace. */
  lemma StripDropsOnlySpace(s: string)
    ensures forall i :: 0 <= i < LeadingSpace(s) ==> IsSpace(s[i])
    ensures forall i :: LeadingSpace(s) + |Strip(s)| <= i < |s| ==> IsSpace(s[i])
  {
    var t := TrimStart(s);
    var r := TrimEnd(t);
    var lead := |s| - |t|;
    assert t == s[lead..];
    forall i | lead + |r| <= i < |s|
      ensures IsSpace(s[i])
    {
      assert s[i] == t[i - lead];
    }
  }
}
