/**
 narrator.py: Markdown clean-up, word chunking under a character budget,
 the per-chunk language choice and the order in which the synthesized
 segments are put together.
 */
module Narrator {
  import opened CharClasses
  import opened Whitespace
  import opened Packing
  import opened Results

  // ---------------------------------------------------------------------------
  // Markdown substitutions (narrator.py:13-17)

  /** The five patterns removed before the symbol strip, in the order applied:
      `\*\*([^*]+)\*\*`, `\*([^*]+)\*`, `` `+([^`]+)`+ ``,
      `\[([^\]]+)\]\([^)]+\)` and `:[a-z_]+:`. */
  datatype Pattern = Bold | Italic | Code | Link | Emoji

  /** A match at the start of the scanned text: how much it covers and what
      replaces it. */
  datatype Match = Match(len: nat, repl: seq<char>)

  /** The character every match of the pattern starts with. */
  function Opener(p: Pattern): char {
    match p
    case Bold => '*'
    case Italic => '*'
    case Code => '`'
    case Link => '['
    case Emoji => ':'
  }

  /** What a match of any pattern looks like: it covers at least its two
      delimiters besides the replacement, and starts with the opener. */
  predicate MatchShape(m: Option<Match>, s: seq<char>, opener: char) {
    m.Some? ==> 0 < m.value.len <= |s| && |m.value.repl| + 2 <= m.value.len && s[0] == opener
  }

  /** `\*\*([^*]+)\*\*` at the start of `s`. */
  function BoldAt(s: seq<char>): (m: Option<Match>)
    ensures MatchShape(m, s, '*')
  {
    if |s| >= 2 && s[0] == '*' && s[1] == '*' then
      var n := Run(s[2..], Not('*'));
      if n > 0 && 3 + n < |s| && s[3 + n] == '*' then Some(Match(n + 4, s[2..2 + n])) else None
    else None
  }

  /** `\*([^*]+)\*` at the start of `s`. */
  function ItalicAt(s: seq<char>): (m: Option<Match>)
    ensures MatchShape(m, s, '*')
  {
    if |s| >= 1 && s[0] == '*' then
      var n := Run(s[1..], Not('*'));
      if n > 0 && 1 + n < |s| then Some(Match(n + 2, s[1..1 + n])) else None
    else None
  }

  /** `` `+([^`]+)`+ `` at the start of `s`. */
  function CodeAt(s: seq<char>): (m: Option<Match>)
    ensures MatchShape(m, s, '`')
  {
    if |s| >= 1 && s[0] == '`' then
      var a := Run(s, Only('`'));
      var n := Run(s[a..], Not('`'));
      if n > 0 && a + n < |s| then
        var b := Run(s[a + n..], Only('`'));
        Some(Match(a + n + b, s[a..a + n]))
      else None
    else None
  }

  /** `\[([^\]]+)\]\([^)]+\)` at the start of `s`. */
  function LinkAt(s: seq<char>): (m: Option<Match>)
    ensures MatchShape(m, s, '[')
  {
    if |s| >= 1 && s[0] == '[' then
      var n := Run(s[1..], Not(']'));
      if n > 0 && 2 + n < |s| && s[2 + n] == '(' then
        var m := Run(s[3 + n..], Not(')'));
        if m > 0 && 3 + n + m < |s| then Some(Match(n + m + 4, s[1..1 + n])) else None
      else None
    else None
  }

  /** `:[a-z_]+:` at the start of `s`; it is replaced by nothing. */
  function EmojiAt(s: seq<char>): (m: Option<Match>)
    ensures MatchShape(m, s, ':')
  {
    if |s| >= 1 && s[0] == ':' then
      var n := Run(s[1..], EmojiName);
      if n > 0 && 1 + n < |s| && s[1 + n] == ':' then Some(Match(n + 2, [])) else None
    else None
  }

  /** The match of `p` starting at the first character of `s`, if any. Each
      variable part is a maximal run of a class that excludes the delimiter
      after it, so the regex has at most one match at the start of `s`: the
      `…Match` lemmas below show a match found is an occurrence of the
      pattern, and the `…Finds` lemmas that every occurrence is found. */
  function MatchAt(p: Pattern, s: seq<char>): (m: Option<Match>)
    ensures MatchShape(m, s, Opener(p))
  {
    match p
    case Bold => BoldAt(s)
    case Italic => ItalicAt(s)
    case Code => CodeAt(s)
    case Link => LinkAt(s)
    case Emoji => EmojiAt(s)
  }

  /** A run of class `k` stops where the text leaves the class. */
  lemma RunThen(x: seq<char>, y: seq<char>, k: Class)
    requires AllIn(x, k) && (|y| == 0 || !In(y[0], k))
    ensures Run(x + y, k) == |x| && (x + y)[|x|..] == y && (x + y)[..|x|] == x
  {
    RunIs(x + y, k, |x|);
  }

  lemma SliceOfSlice(s: seq<char>, i: nat, j: nat)
    requires i + j <= |s|
    ensures s[i..][j..] == s[i + j..] && s[i..][..j] == s[i..i + j]
  {
  }

  // A match found is an occurrence of the pattern, and every occurrence of
  // the pattern at the start of the text is found.

  lemma BoldMatch(s: seq<char>, m: Match)
    requires BoldAt(s) == Some(m)
    ensures |m.repl| > 0 && AllIn(m.repl, Not('*'))
    ensures s[..m.len] == "**" + m.repl + "**"
  {
    var n := Run(s[2..], Not('*'));
    assert s[2..][n] == s[2 + n];
    assert s[..m.len] == "**" + m.repl + "**";
  }

  lemma BoldFinds(w: seq<char>, t: seq<char>)
    requires |w| > 0 && AllIn(w, Not('*'))
    ensures BoldAt("**" + w + "**" + t) == Some(Match(|w| + 4, w))
  {
    var s := "**" + w + "**" + t;
    var n := |w|;
    assert s[2..] == w + "**" + t;
    RunIs(s[2..], Not('*'), n);
    assert s[3 + n] == '*' && s[2..2 + n] == w;
  }

  lemma ItalicMatch(s: seq<char>, m: Match)
    requires ItalicAt(s) == Some(m)
    ensures |m.repl| > 0 && AllIn(m.repl, Not('*'))
    ensures s[..m.len] == "*" + m.repl + "*"
  {
    var n := Run(s[1..], Not('*'));
    assert s[1..][n] == s[1 + n];
    assert s[..m.len] == "*" + m.repl + "*";
  }

  lemma ItalicFinds(w: seq<char>, t: seq<char>)
    requires |w| > 0 && AllIn(w, Not('*'))
    ensures ItalicAt("*" + w + "*" + t) == Some(Match(|w| + 2, w))
  {
    var s := "*" + w + "*" + t;
    var n := |w|;
    assert s[1..] == w + "*" + t;
    RunIs(s[1..], Not('*'), n);
    assert s[1..1 + n] == w;
  }

  /** The backtick runs on both sides are taken whole. */
  lemma CodeMatch(s: seq<char>, m: Match)
    requires CodeAt(s) == Some(m)
    ensures |m.repl| > 0 && AllIn(m.repl, Not('`'))
    ensures exists a: nat, b: nat :: 0 < a && 0 < b && s[..m.len] == Repeat('`', a) + m.repl + Repeat('`', b)
    ensures m.len < |s| ==> s[m.len] != '`'
  {
    var a, n, b := CodeAtRuns(s, m);
    var rest, tail := s[a..], s[a + n..];
    SliceOfSlice(s, a, n);
    assert forall i :: 0 <= i < n ==> m.repl[i] == rest[i];
    assert rest[n] == tail[0];
    assert s[..a] == Repeat('`', a);
    assert tail[..b] == Repeat('`', b);
    Prefix3(s, a, n, b);
    assert s[..m.len] == Repeat('`', a) + m.repl + Repeat('`', b);
    if m.len < |s| {
      assert tail[b] == s[m.len];
    }
  }

  /** The runs `CodeAt` measured to find `m`. */
  lemma CodeAtRuns(s: seq<char>, m: Match) returns (a: nat, n: nat, b: nat)
    requires CodeAt(s) == Some(m)
    ensures CodeRunsAre(s, a, n, b) && m.len == a + n + b && m.repl == s[a..a + n]
  {
    a := Run(s, Only('`'));
    n := Run(s[a..], Not('`'));
    b := Run(s[a + n..], Only('`'));
  }

  lemma Prefix3(s: seq<char>, i: nat, j: nat, k: nat)
    requires i + j + k <= |s|
    ensures s[..i + j + k] == s[..i] + s[i..i + j] + s[i + j..][..k]
  {
  }

  lemma CodeFinds(a: nat, w: seq<char>, b: nat, t: seq<char>)
    requires 0 < a && 0 < b && |w| > 0 && AllIn(w, Not('`'))
    requires |t| == 0 || t[0] != '`'
    ensures CodeAt(Repeat('`', a) + w + Repeat('`', b) + t) == Some(Match(a + |w| + b, w))
  {
    var s := Repeat('`', a) + w + Repeat('`', b) + t;
    CodeRuns(a, w, b, t);
    CodeAtIs(s, a, |w|, b);
    SomeMatch(CodeAt(s), a + |w| + b, w);
  }

  /** `s` opens with `a` backticks, then `n` other characters, then `b` backticks. */
  predicate CodeRunsAre(s: seq<char>, a: nat, n: nat, b: nat)
  {
    && 0 < a && 0 < n && a + n < |s|
    && Run(s, Only('`')) == a && Run(s[a..], Not('`')) == n && Run(s[a + n..], Only('`')) == b
  }

  /** The three runs `CodeAt` measures on a code span followed by `t`. */
  lemma CodeRuns(a: nat, w: seq<char>, b: nat, t: seq<char>)
    requires 0 < a && 0 < b && |w| > 0 && AllIn(w, Not('`'))
    requires |t| == 0 || t[0] != '`'
    ensures CodeRunsAre(Repeat('`', a) + w + Repeat('`', b) + t, a, |w|, b)
    ensures (Repeat('`', a) + w + Repeat('`', b) + t)[a..a + |w|] == w
  {
    var open, close := Repeat('`', a), Repeat('`', b) + t;
    var body := w + close;
    var s := open + body;
    assert Repeat('`', a) + w + Repeat('`', b) + t == s by {
      Assoc(open, w, close);
      Assoc(open + w, Repeat('`', b), t);
    }
    RunThen(open, body, Only('`'));
    RunThen(w, close, Not('`'));
    RunThen(Repeat('`', b), t, Only('`'));
    SliceOfSlice(s, a, |w|);
  }

  lemma SomeMatch(r: Option<Match>, len: nat, repl: seq<char>)
    requires r.Some? && r.value.len == len && r.value.repl == repl
    ensures r == Some(Match(len, repl))
  {
  }

  /** The three runs `CodeAt` measures determine its match. */
  lemma CodeAtIs(s: seq<char>, a: nat, n: nat, b: nat)
    requires CodeRunsAre(s, a, n, b)
    ensures CodeAt(s).Some?
    ensures CodeAt(s).Some? ==> CodeAt(s).value.len == a + n + b
    ensures CodeAt(s).Some? ==> CodeAt(s).value.repl == s[a..a + n]
  {
  }

  lemma LinkMatch(s: seq<char>, m: Match)
    requires LinkAt(s) == Some(m)
    ensures |m.repl| > 0 && AllIn(m.repl, Not(']'))
    ensures exists u :: |u| > 0 && AllIn(u, Not(')')) && s[..m.len] == "[" + m.repl + "](" + u + ")"
  {
    var n := Run(s[1..], Not(']'));
    var k := Run(s[3 + n..], Not(')'));
    assert s[1..][n] == s[1 + n];
    assert s[3 + n..][k] == s[3 + n + k];
    var u := s[3 + n..3 + n + k];
    assert AllIn(u, Not(')'));
    assert s[..m.len] == "[" + m.repl + "](" + u + ")";
  }

  lemma LinkFinds(caption: seq<char>, url: seq<char>, t: seq<char>)
    requires |caption| > 0 && AllIn(caption, Not(']'))
    requires |url| > 0 && AllIn(url, Not(')'))
    ensures LinkAt("[" + caption + "](" + url + ")" + t) == Some(Match(|caption| + |url| + 4, caption))
  {
    LinkRuns(caption, url, t);
  }

  /** The two runs `LinkAt` measures on a link followed by `t`. */
  lemma LinkRuns(caption: seq<char>, url: seq<char>, t: seq<char>)
    requires |caption| > 0 && AllIn(caption, Not(']'))
    requires |url| > 0 && AllIn(url, Not(')'))
    ensures LinkRunsAre("[" + caption + "](" + url + ")" + t, |caption|, |url|)
    ensures ("[" + caption + "](" + url + ")" + t)[1..1 + |caption|] == caption
  {
    var s := "[" + caption + "](" + url + ")" + t;
    var n, k := |caption|, |url|;
    assert s[1..] == caption + "](" + url + ")" + t;
    RunIs(s[1..], Not(']'), n);
    assert s[3 + n..] == url + ")" + t;
    RunIs(s[3 + n..], Not(')'), k);
    assert s[2 + n] == '(' && s[1..1 + n] == caption;
  }

  /** `s` is `[`, `n` characters other than `]`, `](`, `k` characters other
      than `)`, and at least one more character. */
  predicate LinkRunsAre(s: seq<char>, n: nat, k: nat)
  {
    && 0 < n && 3 + n + k < |s| && 0 < k && s[0] == '[' && s[2 + n] == '('
    && Run(s[1..], Not(']')) == n && Run(s[3 + n..], Not(')')) == k
  }

  /** The emoji pattern has no group: a match is replaced by nothing. */
  lemma EmojiMatch(s: seq<char>, m: Match)
    requires EmojiAt(s) == Some(m)
    ensures m.repl == []
    ensures exists name :: |name| > 0 && AllIn(name, EmojiName) && s[..m.len] == ":" + name + ":"
  {
    var n := Run(s[1..], EmojiName);
    var name := s[1..1 + n];
    assert AllIn(name, EmojiName);
    assert s[..m.len] == ":" + name + ":";
  }

  lemma EmojiFinds(name: seq<char>, t: seq<char>)
    requires |name| > 0 && AllIn(name, EmojiName)
    ensures EmojiAt(":" + name + ":" + t) == Some(Match(|name| + 2, []))
  {
    var s := ":" + name + ":" + t;
    var n := |name|;
    assert s[1..] == name + ":" + t;
    RunIs(s[1..], EmojiName, n);
  }

  /** `re.sub(pattern, r"\1", s)` (or `""` for the emoji pattern): scan left
      to right, replace each match and resume after it, copy any other
      character. */
  function Sub(p: Pattern, s: seq<char>): (r: seq<char>)
    ensures |r| <= |s|
    ensures |r| == |s| ==> r == s
    decreases |s|
  {
    if |s| == 0 then []
    else match MatchAt(p, s)
      case Some(m) => m.repl + Sub(p, s[m.len..])
      case None => [s[0]] + Sub(p, s[1..])
  }

  /** A character where no match starts is copied as it is. */
  lemma SubStep(p: Pattern, u: seq<char>)
    requires |u| > 0 && (u[0] != Opener(p) || MatchAt(p, u).None?)
    ensures Sub(p, u) == [u[0]] + Sub(p, u[1..])
  {
  }

  /** Text without the pattern's opener is left alone. */
  lemma {:induction false} SubCopies(p: Pattern, s: seq<char>)
    requires forall i :: 0 <= i < |s| ==> s[i] != Opener(p)
    ensures Sub(p, s) == s
    decreases |s|
  {
    if |s| > 0 {
      var t := s[1..];
      assert forall i :: 0 <= i < |t| ==> t[i] == s[i + 1];
      SubStep(p, s);
      SubCopies(p, t);
      assert s == [s[0]] + t;
    }
  }

  // ---------------------------------------------------------------------------
  // Symbol strip and whitespace (narrator.py:18-20)

  /** The class `[#*_~`>]`. */
  predicate IsMarkup(c: char) {
    c == '#' || c == '*' || c == '_' || c == '~' || c == '`' || c == '>'
  }

  /** `re.sub(r"[#*_~`>]", "", s)`. */
  function DropMarkup(s: seq<char>): (r: seq<char>)
    ensures |r| <= |s|
    ensures forall i :: 0 <= i < |r| ==> !IsMarkup(r[i])
    decreases |s|
  {
    if |s| == 0 then []
    else if IsMarkup(s[0]) then DropMarkup(s[1..])
    else [s[0]] + DropMarkup(s[1..])
  }

  /** Text without markup characters is left alone. */
  lemma {:induction false} DropMarkupKeeps(s: seq<char>)
    requires forall i :: 0 <= i < |s| ==> !IsMarkup(s[i])
    ensures DropMarkup(s) == s
    decreases |s|
  {
    if |s| > 0 {
      var t := s[1..];
      assert forall i :: 0 <= i < |t| ==> t[i] == s[i + 1];
      DropMarkupKeeps(t);
      assert s == [s[0]] + t;
    }
  }

  /** The strip works character by character. */
  lemma {:induction false} DropMarkupAppend(a: seq<char>, b: seq<char>)
    ensures DropMarkup(a + b) == DropMarkup(a) + DropMarkup(b)
    decreases |a|
  {
    if |a| > 0 {
      assert (a + b)[1..] == a[1..] + b;
      DropMarkupAppend(a[1..], b);
      if !IsMarkup(a[0]) {
        Assoc([a[0]], DropMarkup(a[1..]), DropMarkup(b));
      }
    } else {
      assert a + b == b;
    }
  }

  /** The five substitutions of narrator.py:13-17, in order. */
  function Substitute(raw: seq<char>): (r: seq<char>)
    ensures |r| <= |raw|
  {
    Sub(Emoji, Sub(Link, Sub(Code, Sub(Italic, Sub(Bold, raw)))))
  }

  /** `clean_text`: the five substitutions in order, the symbol strip, then
      whitespace collapsing and `strip()`. */
  function Clean(raw: seq<char>): (r: seq<char>)
    ensures |r| <= |raw|
    ensures SingleSpaced(r)
    ensures forall i :: 0 <= i < |r| ==> !IsMarkup(r[i])
  {
    Normalise(DropMarkup(Substitute(raw)))
  }

  /** Text with no markup characters, already single-spaced, comes back
      unchanged. */
  lemma CleanUnchanged(s: seq<char>)
    requires forall i :: 0 <= i < |s| ==> s[i] !in "*`[:#_~>"
    requires SingleSpaced(s)
    ensures Clean(s) == s
  {
    SubCopies(Bold, s);
    SubCopies(Italic, s);
    SubCopies(Code, s);
    SubCopies(Link, s);
    SubCopies(Emoji, s);
    DropMarkupKeeps(s);
    Normalised(s);
  }

  // ---------------------------------------------------------------------------
  // Chunking (narrator.py:23-31)

  /** `chunk_text`: the words of the text packed greedily; a word joins the
      buffer when `len(cur) + len(w) + 1 < max_chars`. */
  function Chunk(text: seq<char>, maxChars: int): seq<seq<char>> {
    Greedy(Split(text), maxChars, 1)
  }

  /** The words of each chunk, one list after the other. */
  function WordsOf(chunks: seq<seq<char>>): seq<seq<char>>
    decreases |chunks|
  {
    if |chunks| == 0 then [] else Split(chunks[0]) + WordsOf(chunks[1..])
  }

  lemma {:induction false} WordsOfChunks(g: seq<seq<seq<char>>>)
    requires forall i :: 0 <= i < |g| ==> Words(g[i])
    ensures WordsOf(Chunks(g)) == Flatten(g)
    decreases |g|
  {
    if |g| > 0 {
      ChunksCons(g[0], g[1..]);
      assert [g[0]] + g[1..] == g;
      SplitJoin(g[0]);
      WordsOfChunks(g[1..]);
    }
  }

  /** The groups of words behind the chunks, which are exactly the words of
      each chunk. */
  lemma ChunkGroups(text: seq<char>, maxChars: int)
    ensures var r := Chunk(text, maxChars);
            var g := Groups(Split(text), maxChars, 1);
      && |r| == |g|
      && (forall i :: 0 <= i < |r| ==> r[i] == Join(g[i]) && Split(r[i]) == g[i])
      && Flatten(g) == Split(text)
  {
    var ws := Split(text);
    forall i | 0 <= i < |ws| ensures Phrase(ws[i]) { WordIsPhrase(ws[i]); }
    GreedyGroups(ws, maxChars, 1);
    var g := Groups(ws, maxChars, 1);
    forall i | 0 <= i < |g| ensures Split(Join(g[i])) == g[i] {
      forall j | 0 <= j < |g[i]| ensures |g[i][j]| > 0 && NoSpace(g[i][j]) {
        FlattenMember(g, i, j);
      }
      SplitJoin(g[i]);
    }
  }

  /** No word is lost, split, repeated or moved: each chunk is its words
      joined by single spaces, and the chunks' words in order are the text's. */
  lemma ChunkKeepsWords(text: seq<char>, maxChars: int)
    ensures var r := Chunk(text, maxChars);
      && (forall i :: 0 <= i < |r| ==> r[i] == Join(Split(r[i])))
      && WordsOf(r) == Split(text)
  {
    var r := Chunk(text, maxChars);
    var g := Groups(Split(text), maxChars, 1);
    ChunkGroups(text, maxChars);
    forall i | 0 <= i < |g| ensures Words(g[i]) {
      assert Split(r[i]) == g[i];
    }
    WordsOfChunks(g);
    GreedyGroups(Split(text), maxChars, 1);
  }

  /** Every chunk past the first is under `max_chars` unless it is a single
      word; the first chunk carries a leading space in the buffer and so is
      under `max_chars - 1`. */
  lemma ChunkBound(text: seq<char>, maxChars: int)
    ensures var r := Chunk(text, maxChars);
      && (|r| > 0 && r[0] != [] ==> |r[0]| + 1 < maxChars)
      && (forall i :: 0 < i < |r| && |Split(r[i])| != 1 ==> |r[i]| < maxChars)
  {
    var ws := Split(text);
    forall i | 0 <= i < |ws| ensures Phrase(ws[i]) { WordIsPhrase(ws[i]); }
    ChunkGroups(text, maxChars);
    GreedyBound(ws, maxChars, 1);
    GreedyEmpty(ws, maxChars, 1);
  }

  /** Chunk `i` is followed by a chunk whose first word would have taken the
      buffer `cur` (of length `|chunks[i]| + lead`) to `max_chars`. */
  predicate NextWordOverflows(r: seq<seq<char>>, i: int, lead: nat, maxChars: int) {
    && 0 <= i && i + 1 < |r|
    && |Split(r[i + 1])| > 0
    && |r[i]| + lead + |Split(r[i + 1])[0]| + 1 >= maxChars
  }

  /** A chunk is closed only when the next word would take the buffer
      (counting the first chunk's leading space) to `max_chars`. */
  lemma ChunkGreedy(text: seq<char>, maxChars: int)
    ensures var r := Chunk(text, maxChars);
      && (|r| >= 2 && r[0] != [] ==> NextWordOverflows(r, 0, 1, maxChars))
      && (forall i :: 0 < i < |r| - 1 ==> NextWordOverflows(r, i, 0, maxChars))
  {
    var ws := Split(text);
    var r := Chunk(text, maxChars);
    var g := Groups(ws, maxChars, 1);
    forall i | 0 <= i < |ws| ensures Phrase(ws[i]) { WordIsPhrase(ws[i]); }
    ChunkGroups(text, maxChars);
    GreedyMaximal(ws, maxChars, 1);
    if |r| >= 2 && r[0] != [] {
      assert Split(r[1]) == g[1];
    }
    forall i | 0 < i < |r| - 1 ensures NextWordOverflows(r, i, 0, maxChars) {
      assert NextOverflows(r, g, i, maxChars, 1);
      assert Split(r[i + 1]) == g[i + 1];
    }
  }

  /** Only the first chunk can be empty, and it is exactly when the first word
      plus one reaches `max_chars`; a text without words gives no chunks. */
  lemma ChunkEmpty(text: seq<char>, maxChars: int)
    ensures var r := Chunk(text, maxChars);
      && (r == [] <==> Blank(text))
      && (forall i :: 0 < i < |r| ==> r[i] != [])
      && (r != [] ==> (r[0] == [] <==> |Split(text)[0]| + 1 >= maxChars))
  {
    var ws := Split(text);
    forall i | 0 <= i < |ws| ensures Phrase(ws[i]) { WordIsPhrase(ws[i]); }
    SplitEmpty(text);
    GreedyEmpty(ws, maxChars, 1);
  }

  /** One word that does not fit the empty buffer comes out after an empty
      chunk, not alone. */
  lemma OversizedWord(w: seq<char>, maxChars: int)
    requires |w| > 0 && NoSpace(w)
    requires |w| + 1 >= maxChars
    ensures Chunk(w, maxChars) == ["", w]
  {
    SplitWord(w);
    assert Split(w)[1..] == [];
    assert Strip(w) == w by { StripPhrase(w); }
    assert Strip("") == "" by { assert Blank(""); }
    assert Pack([], w, maxChars, 1) == [w];
    assert Pack([w], "", maxChars, 1) == [""] + Pack([], w, maxChars, 1);
  }

  // ---------------------------------------------------------------------------
  // Languages (narrator.py:81)

  /** The language for chunk `i`: `lang1` unless `lang2` is set and non-empty,
      in which case odd chunks use `lang2`. */
  function LangFor(i: nat, lang1: seq<char>, lang2: Option<seq<char>>): seq<char> {
    if lang2.None? || lang2.value == [] then lang1
    else if i % 2 == 0 then lang1
    else lang2.value
  }

  /** The languages of `n` chunks, in chunk order. */
  function Schedule(n: nat, lang1: seq<char>, lang2: Option<seq<char>>): (r: seq<seq<char>>)
    ensures |r| == n
    ensures forall i :: 0 <= i < n ==> r[i] == lang1 || (lang2.Some? && r[i] == lang2.value)
  {
    seq(n, i requires 0 <= i < n => LangFor(i, lang1, lang2))
  }

  /** With one language every chunk gets it; with two they alternate, the
      first chunk taking `lang1` and the pattern repeating every two chunks. */
  lemma ScheduleAlternates(n: nat, lang1: seq<char>, lang2: Option<seq<char>>)
    ensures var r := Schedule(n, lang1, lang2);
      && (lang2.None? || lang2.value == [] ==> forall i :: 0 <= i < n ==> r[i] == lang1)
      && (n > 0 ==> r[0] == lang1)
      && (n > 1 && lang2.Some? && lang2.value != [] ==> r[1] == lang2.value)
      && (forall i :: 0 <= i < n - 2 ==> r[i + 2] == r[i])
  {
  }

  // ---------------------------------------------------------------------------
  // Synthesis and assembly (narrator.py:69-88)

  datatype Failure =
    | NothingToNarrate          // no chunks after cleaning (narrator.py:72-74)
    | SynthesisFailed(at: nat)  // the engine failed on chunk `at`

  /** Synthesize `chunks` in order, chunk `k` being chunk `start + k` of the
      run, and stop at the first failure. `synth` stands for gTTS plus the
      decoding of its MP3 into samples. */
  function SynthesizeAll<A>(chunks: seq<seq<char>>, start: nat, lang1: seq<char>, lang2: Option<seq<char>>,
                            synth: (seq<char>, seq<char>) -> Option<seq<A>>): (r: Result<seq<seq<A>>, Failure>)
    ensures r.Ok? ==> |r.value| == |chunks|
    ensures r.Ok? ==> forall k :: 0 <= k < |chunks| ==>
      synth(chunks[k], LangFor(start + k, lang1, lang2)) == Some(r.value[k])
    ensures r.Err? ==> r.error.SynthesisFailed? && start <= r.error.at < start + |chunks|
    ensures r.Err? ==> synth(chunks[r.error.at - start], LangFor(r.error.at, lang1, lang2)).None?
    ensures r.Err? ==> forall k :: 0 <= k < r.error.at - start ==>
      synth(chunks[k], LangFor(start + k, lang1, lang2)).Some?
    decreases |chunks|
  {
    if |chunks| == 0 then Ok([])
    else match synth(chunks[0], LangFor(start, lang1, lang2))
      case None => Err(SynthesisFailed(start))
      case Some(seg) =>
        var tail := chunks[1..];
        assert forall k :: 1 <= k < |chunks| ==> tail[k - 1] == chunks[k] && start + 1 + (k - 1) == start + k;
        match SynthesizeAll(tail, start + 1, lang1, lang2, synth)
        case Err(e) => Err(e)
        case Ok(segs) => Ok([seg] + segs)
  }

  /** `sum(audio_segments[1:], audio_segments[0])`: add the segments one by
      one onto the first. */
  function Assemble<A>(segs: seq<seq<A>>): seq<A>
    requires |segs| > 0
  {
    AddAll(segs[1..], segs[0])
  }

  function AddAll<A>(segs: seq<seq<A>>, acc: seq<A>): seq<A>
    decreases |segs|
  {
    if |segs| == 0 then acc else AddAll(segs[1..], acc + segs[0])
  }

  lemma {:induction false} AddAllFlatten<A>(segs: seq<seq<A>>, acc: seq<A>)
    ensures AddAll(segs, acc) == acc + Flatten(segs)
    decreases |segs|
  {
    if |segs| > 0 {
      AddAllFlatten(segs[1..], acc + segs[0]);
      assert acc + segs[0] + Flatten(segs[1..]) == acc + (segs[0] + Flatten(segs[1..]));
    }
  }

  /** The track is the segments in chunk order, nothing added or dropped. */
  lemma AssembleInOrder<A>(segs: seq<seq<A>>)
    requires |segs| > 0
    ensures Assemble(segs) == Flatten(segs)
  {
    AddAllFlatten(segs[1..], segs[0]);
  }

  /** narrator.py:72-88 once the chunks are known: stop if there are none,
      otherwise synthesize every chunk in order and join the segments. */
  function Speak<A>(chunks: seq<seq<char>>, lang1: seq<char>, lang2: Option<seq<char>>,
                    synth: (seq<char>, seq<char>) -> Option<seq<A>>): Result<seq<A>, Failure>
  {
    if |chunks| == 0 then Err(NothingToNarrate)
    else match SynthesizeAll(chunks, 0, lang1, lang2, synth)
      case Err(e) => Err(e)
      case Ok(segs) => Ok(Assemble(segs))
  }

  /** The whole run after the input is read: clean, chunk, speak. */
  function Narrate<A>(raw: seq<char>, maxChars: int, lang1: seq<char>, lang2: Option<seq<char>>,
                      synth: (seq<char>, seq<char>) -> Option<seq<A>>): Result<seq<A>, Failure>
  {
    Speak(Chunk(Clean(raw), maxChars), lang1, lang2, synth)
  }

  /** A run stops with nothing to narrate exactly when cleaning leaves no
      word. */
  lemma NarrateNothing<A>(raw: seq<char>, maxChars: int, lang1: seq<char>, lang2: Option<seq<char>>,
                          synth: (seq<char>, seq<char>) -> Option<seq<A>>)
    ensures Narrate(raw, maxChars, lang1, lang2, synth) == Err(NothingToNarrate) <==> Blank(Clean(raw))
  {
    ChunkEmpty(Clean(raw), maxChars);
  }

  /** A successful run's track is the chunks' audio, in chunk order, each
      chunk synthesized in its scheduled language. */
  lemma SpeakTrack<A>(chunks: seq<seq<char>>, lang1: seq<char>, lang2: Option<seq<char>>,
                      synth: (seq<char>, seq<char>) -> Option<seq<A>>)
    requires Speak(chunks, lang1, lang2, synth).Ok?
    ensures exists segs: seq<seq<A>> ::
      && |segs| == |chunks|
      && Speak(chunks, lang1, lang2, synth).value == Flatten(segs)
      && (forall k :: 0 <= k < |chunks| ==> synth(chunks[k], LangFor(k, lang1, lang2)) == Some(segs[k]))
  {
    var r := SynthesizeAll(chunks, 0, lang1, lang2, synth);
    var segs := r.value;
    AssembleInOrder(segs);
    assert Speak(chunks, lang1, lang2, synth).value == Flatten(segs);
    forall k | 0 <= k < |chunks|
      ensures synth(chunks[k], LangFor(k, lang1, lang2)) == Some(segs[k])
    {
      assert synth(chunks[k], LangFor(0 + k, lang1, lang2)) == Some(r.value[k]);
    }
  }

  /** A failed synthesis names the first chunk whose synthesis failed; later
      chunks are not synthesized. */
  lemma SpeakFailure<A>(chunks: seq<seq<char>>, lang1: seq<char>, lang2: Option<seq<char>>,
                        synth: (seq<char>, seq<char>) -> Option<seq<A>>)
    requires Speak(chunks, lang1, lang2, synth).Err?
    ensures var e := Speak(chunks, lang1, lang2, synth).error;
      && (e == NothingToNarrate <==> chunks == [])
      && (e.SynthesisFailed? ==>
           && e.at < |chunks|
           && synth(chunks[e.at], LangFor(e.at, lang1, lang2)).None?
           && (forall j :: 0 <= j < e.at ==> synth(chunks[j], LangFor(j, lang1, lang2)).Some?))
  {
  }
}
