/**
 The character classes the text-preparation code of both scripts relies on:
 Python's notion of whitespace (shared by the regular-expression class `\s`,
 `str.split()` and `str.strip()`), ASCII, and the negated bracket classes the
 Markdown patterns use. `Run` measures the maximal prefix of a class, which is
 what a greedy `X+` matches in a leftmost scan.
 */
module CharClasses {

  /** A character for which Python's `str.isspace()` holds. CPython's `\s`,
      `split()` and `strip()` without arguments all use this same set. */
  predicate IsSpace(c: char) {
    c in SpaceChars
  }

  const SpaceChars: set<char> := {
    '\t', '\n', '\U{000B}', '\U{000C}', '\r', '\U{001C}', '\U{001D}', '\U{001E}', '\U{001F}', ' ',
    '\U{0085}', '\U{00A0}', '\U{1680}', '\U{2000}', '\U{2001}', '\U{2002}', '\U{2003}', '\U{2004}', '\U{2005}',
    '\U{2006}', '\U{2007}', '\U{2008}', '\U{2009}', '\U{200A}', '\U{2028}', '\U{2029}', '\U{202F}', '\U{205F}', '\U{3000}'
  }

  /** Visible ASCII characters are not whitespace. */
  lemma VisibleNotSpace(c: char)
    requires '!' <= c <= '~'
    ensures !IsSpace(c)
  {
  }

  /** Inside the range `[\x00-\x7F]`. */
  predicate IsAscii(c: char) {
    (c as int) < 128
  }

  /** The classes that appear in the scripts' patterns. */
  datatype Class =
    | Space            // \s
    | NonSpace         // what split() keeps
    | NonAscii         // [^\x00-\x7F]
    | Not(c: char)     // [^*], [^`], [^\]], [^)]
    | Only(c: char)    // `, ' '
    | EmojiName        // [a-z_]

  predicate In(c: char, k: Class) {
    match k
    case Space => IsSpace(c)
    case NonSpace => !IsSpace(c)
    case NonAscii => !IsAscii(c)
    case Not(d) => c != d
    case Only(d) => c == d
    case EmojiName => ('a' <= c <= 'z') || c == '_'
  }

  /** Length of the longest prefix of `s` whose characters all lie in `k`. */
  function Run(s: seq<char>, k: Class): (n: nat)
    ensures n <= |s|
    ensures forall i :: 0 <= i < n ==> In(s[i], k)
    ensures n < |s| ==> !In(s[n], k)
    decreases |s|
  {
    if |s| > 0 && In(s[0], k) then 1 + Run(s[1..], k) else 0
  }

  /** Length of the longest suffix of `s` whose characters all lie in `k`. */
  function TrailRun(s: seq<char>, k: Class): (n: nat)
    ensures n <= |s|
    ensures forall i :: |s| - n <= i < |s| ==> In(s[i], k)
    ensures n < |s| ==> !In(s[|s| - 1 - n], k)
    decreases |s|
  {
    if |s| > 0 && In(s[|s| - 1], k) then 1 + TrailRun(s[..|s| - 1], k) else 0
  }

  /** The prefix measured by `Run` is determined by its two boundary facts. */
  lemma RunIs(s: seq<char>, k: Class, n: nat)
    requires n <= |s|
    requires forall i :: 0 <= i < n ==> In(s[i], k)
    requires n < |s| ==> !In(s[n], k)
    ensures Run(s, k) == n
  {
  }

  /** Likewise for `TrailRun`. */
  lemma TrailRunIs(s: seq<char>, k: Class, n: nat)
    requires n <= |s|
    requires forall i :: |s| - n <= i < |s| ==> In(s[i], k)
    requires n < |s| ==> !In(s[|s| - 1 - n], k)
    ensures TrailRun(s, k) == n
  {
  }

  /** Every character of `s` is in class `k`. */
  predicate AllIn(s: seq<char>, k: Class) {
    forall i :: 0 <= i < |s| ==> In(s[i], k)
  }

  /** `n` copies of `c`. */
  function Repeat(c: char, n: nat): (r: seq<char>)
    ensures |r| == n && forall i :: 0 <= i < n ==> r[i] == c
  {
    seq(n, i => c)
  }
}
