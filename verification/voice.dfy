/**
 voice.py: ASCII clean-up, sentence splitting, sentence chunking under a
 character budget, and the name of the output file.
 */
module Voice {
  import opened CharClasses
  import opened Whitespace
  import opened Packing
  import opened Results

  /** `chunk_text`'s default `max_chars`, the value `main` chunks with. */
  const DefaultMaxChars: int := 500

  // ---------------------------------------------------------------------------
  // Cleaning (voice.py:16-21)

  predicate AllAscii(s: seq<char>) {
    forall i :: 0 <= i < |s| ==> IsAscii(s[i])
  }

  /** `re.sub(r"[^\x00-\x7F]+", " ", s)`: every maximal run of non-ASCII
      characters becomes one space. */
  function ReplaceNonAscii(s: seq<char>): (r: seq<char>)
    ensures |r| <= |s|
    ensures AllAscii(r)
    decreases |s|
  {
    if |s| == 0 then []
    else if !IsAscii(s[0]) then " " + ReplaceNonAscii(s[Run(s, NonAscii)..])
    else [s[0]] + ReplaceNonAscii(s[1..])
  }

  /** ASCII text is left alone. */
  lemma {:induction false} ReplaceKeeps(s: seq<char>)
    requires AllAscii(s)
    ensures ReplaceNonAscii(s) == s
    decreases |s|
  {
    if |s| > 0 {
      var t := s[1..];
      assert forall i :: 0 <= i < |t| ==> t[i] == s[i + 1];
      ReplaceKeeps(t);
      assert s == [s[0]] + t;
    }
  }

  /** Reference for the clean-up: every non-ASCII character, taken one at a
      time, turned into a space. */
  function SpaceOut(s: seq<char>): (r: seq<char>)
    ensures |r| == |s|
  {
    seq(|s|, i requires 0 <= i < |s| => if IsAscii(s[i]) then s[i] else ' ')
  }

  /** `clean_text`: non-ASCII runs become spaces, whitespace runs collapse to
      one space, and the ends are stripped. */
  function Clean(s: seq<char>): (r: seq<char>)
    ensures |r| <= |s|
    ensures AllAscii(r)
    ensures SingleSpaced(r)
  {
    Normalise(ReplaceNonAscii(s))
  }

  /** A non-empty run of blanks that starts with a space separates words
      exactly like a single space. */
  lemma SplitBlankSep(p: seq<char>, b: seq<char>, x: seq<char>)
    requires |b| > 0 && b[0] == ' ' && Blank(b)
    ensures Split(p + b + x) == Split(p) + Split(x)
  {
    var b1 := b[1..];
    var y := b1 + x;
    assert p + b + x == p + " " + y by {
      assert b == " " + b1;
      Assoc(p, " ", b1);
      Assoc(p + " ", b1, x);
    }
    assert Split(y) == Split(x) by {
      assert y[..|b1|] == b1 && y[|b1|..] == x;
      assert Blank(b1) by {
        forall i | 0 <= i < |b1| ensures IsSpace(b1[i]) {
          assert b1[i] == b[i + 1];
        }
      }
      SplitSkip(y, |b1|);
    }
    SplitSep(p, y);
  }

  /** `SpaceOut` works character by character. */
  lemma SpaceOutAppend(a: seq<char>, b: seq<char>)
    ensures SpaceOut(a + b) == SpaceOut(a) + SpaceOut(b)
  {
  }

  /** Replacing a whole run by one space splits into the same words as
      replacing each of its characters, whatever text comes before. */
  lemma {:induction false} SplitReplace(p: seq<char>, s: seq<char>)
    ensures Split(p + ReplaceNonAscii(s)) == Split(p + SpaceOut(s))
    decreases |s|
  {
    if |s| == 0 {
      assert p + ReplaceNonAscii(s) == p;
      assert p + SpaceOut(s) == p;
    } else if !IsAscii(s[0]) {
      SplitReplaceRun(p, s);
    } else {
      SplitReplaceChar(p, s);
    }
  }

  /** The step of `SplitReplace` for a text that starts with an ASCII
      character. */
  lemma {:induction false} SplitReplaceChar(p: seq<char>, s: seq<char>)
    requires |s| > 0 && IsAscii(s[0])
    ensures Split(p + ReplaceNonAscii(s)) == Split(p + SpaceOut(s))
    decreases |s|, 0
  {
    var c, t := [s[0]], s[1..];
    SplitReplace(p + c, t);
    assert p + ReplaceNonAscii(s) == p + c + ReplaceNonAscii(t) by {
      assert ReplaceNonAscii(s) == c + ReplaceNonAscii(t);
      Assoc(p, c, ReplaceNonAscii(t));
    }
    assert p + SpaceOut(s) == p + c + SpaceOut(t) by {
      assert s == c + t;
      SpaceOutAppend(c, t);
      assert SpaceOut(c) == c;
      Assoc(p, c, SpaceOut(t));
    }
  }

  /** The step of `SplitReplace` for a text that starts with a non-ASCII run. */
  lemma {:induction false} SplitReplaceRun(p: seq<char>, s: seq<char>)
    requires |s| > 0 && !IsAscii(s[0])
    ensures Split(p + ReplaceNonAscii(s)) == Split(p + SpaceOut(s))
    decreases |s|, 0
  {
    var rest := s[Run(s, NonAscii)..];
    ReplaceRunSplit(p, s);
    SpaceOutRunSplit(p, s);
    SplitReplace([], rest);
    assert [] + ReplaceNonAscii(rest) == ReplaceNonAscii(rest);
    assert [] + SpaceOut(rest) == SpaceOut(rest);
  }

  /** A leading non-ASCII run, replaced by one space, separates words. */
  lemma ReplaceRunSplit(p: seq<char>, s: seq<char>)
    requires |s| > 0 && !IsAscii(s[0])
    ensures Split(p + ReplaceNonAscii(s)) == Split(p) + Split(ReplaceNonAscii(s[Run(s, NonAscii)..]))
  {
    var rest := s[Run(s, NonAscii)..];
    assert ReplaceNonAscii(s) == " " + ReplaceNonAscii(rest);
    assert p + ReplaceNonAscii(s) == p + " " + ReplaceNonAscii(rest);
    SplitBlankSep(p, " ", ReplaceNonAscii(rest));
  }

  /** The same run, spaced out character by character, separates words too. */
  lemma SpaceOutRunSplit(p: seq<char>, s: seq<char>)
    requires |s| > 0 && !IsAscii(s[0])
    ensures Split(p + SpaceOut(s)) == Split(p) + Split(SpaceOut(s[Run(s, NonAscii)..]))
  {
    var n := Run(s, NonAscii);
    var rest := s[n..];
    var run := SpaceOut(s[..n]);
    assert s == s[..n] + rest;
    SpaceOutAppend(s[..n], rest);
    assert p + SpaceOut(s) == p + run + SpaceOut(rest);
    assert run[0] == ' ';
    assert Blank(run) by {
      forall i | 0 <= i < |run| ensures IsSpace(run[i]) {
        assert !IsAscii(s[i]);
      }
    }
    SplitBlankSep(p, run, SpaceOut(rest));
  }

  /** The cleaned text is exactly the words made of ASCII characters, in
      order, joined by single spaces; a non-ASCII character separates words
      like whitespace does. */
  lemma CleanWords(s: seq<char>)
    ensures Clean(s) == Join(Split(SpaceOut(s)))
    ensures Split(Clean(s)) == Split(SpaceOut(s))
  {
    CollapseStrip(ReplaceNonAscii(s));
    SplitReplace([], s);
    assert [] + ReplaceNonAscii(s) == ReplaceNonAscii(s);
    assert [] + SpaceOut(s) == SpaceOut(s);
    SplitJoin(Split(SpaceOut(s)));
  }

  /** Clean text is a fixed point, and it is exactly the single-spaced ASCII
      text; so cleaning twice is cleaning once. */
  lemma CleanFixed(s: seq<char>)
    ensures Clean(s) == s <==> AllAscii(s) && SingleSpaced(s)
    ensures Clean(Clean(s)) == Clean(s)
  {
    if AllAscii(s) && SingleSpaced(s) {
      ReplaceKeeps(s);
      Normalised(s);
    }
    var t := Clean(s);
    ReplaceKeeps(t);
    Normalised(t);
  }

  // ---------------------------------------------------------------------------
  // Sentences (voice.py:26)

  predicate IsTerminator(c: char) {
    c == '.' || c == '!' || c == '?'
  }

  /** Position `i` of `s` is where `(?<=[.!?]) +` matches: a space right
      after a terminator. */
  predicate CutAt(s: seq<char>, i: int) {
    0 < i < |s| && IsTerminator(s[i - 1]) && s[i] == ' '
  }

  /** A piece the pattern does not match inside. */
  predicate NoCut(s: seq<char>) {
    forall i :: 0 < i < |s| ==> !CutAt(s, i)
  }

  /** The first match position at or after `i`, or `|s|` if there is none. */
  function FirstCut(s: seq<char>, i: nat): (k: nat)
    requires i <= |s|
    ensures i <= k <= |s|
    ensures k < |s| ==> CutAt(s, k)
    ensures forall j :: i <= j < k ==> !CutAt(s, j)
    decreases |s| - i
  {
    if i == |s| then |s| else if CutAt(s, i) then i else FirstCut(s, i + 1)
  }

  lemma {:induction false} FirstCutIs(s: seq<char>, i: nat, k: nat)
    requires i <= k <= |s|
    requires k < |s| ==> CutAt(s, k)
    requires forall j :: i <= j < k ==> !CutAt(s, j)
    ensures FirstCut(s, i) == k
    decreases |s| - i
  {
    if i < k {
      FirstCutIs(s, i + 1, k);
    }
  }

  /** Where the first match starts, or `|s|` if there is none. */
  function Cut(s: seq<char>): nat {
    FirstCut(s, 0)
  }

  /** The length of the run of spaces the first match covers. */
  function Gap(s: seq<char>): nat
    requires Cut(s) < |s|
  {
    Run(s[Cut(s)..], Only(' '))
  }

  /** `re.split(r'(?<=[.!?]) +', s)`: cut at each maximal run of spaces that
      follows a terminator, dropping the run. The pattern never matches the
      empty string, so the pieces are exactly what the leftmost scan leaves
      between its matches, including an empty last piece when the text ends
      in such a run. */
  function Sentences(s: seq<char>): (ps: seq<seq<char>>)
    ensures |ps| > 0
    decreases |s|
  {
    if Cut(s) == |s| then [s]
    else
      assert Gap(s) > 0 by { assert In(s[Cut(s)..][0], Only(' ')); }
      [s[..Cut(s)]] + Sentences(s[Cut(s) + Gap(s)..])
  }

  /** The lengths of the runs `Sentences` drops, in order. */
  function Gaps(s: seq<char>): seq<nat>
    decreases |s|
  {
    if Cut(s) == |s| then []
    else
      assert Gap(s) > 0 by { assert In(s[Cut(s)..][0], Only(' ')); }
      [Gap(s)] + Gaps(s[Cut(s) + Gap(s)..])
  }

  /** The pieces put back together with the given runs between them. */
  function Weave(ps: seq<seq<char>>, gs: seq<nat>): seq<char>
    requires |gs| + 1 == |ps|
    decreases |gs|
  {
    if |gs| == 0 then ps[0] else ps[0] + Repeat(' ', gs[0]) + Weave(ps[1..], gs[1..])
  }

  /** The shape of a split: no piece contains a match; every piece but the
      last ends in a terminator; no piece but the first starts with a space. */
  predicate SentenceShape(ps: seq<seq<char>>) {
    && (forall i :: 0 <= i < |ps| ==> NoCut(ps[i]))
    && (forall i :: 0 <= i < |ps| - 1 ==> |ps[i]| > 0 && IsTerminator(ps[i][|ps[i]| - 1]))
    && (forall i :: 0 < i < |ps| ==> |ps[i]| == 0 || ps[i][0] != ' ')
  }

  /** A run of spaces is spaces, and what follows it is not one. */
  lemma SpaceRun(t: seq<char>)
    ensures t[..Run(t, Only(' '))] == Repeat(' ', Run(t, Only(' ')))
    ensures Run(t, Only(' ')) < |t| ==> t[Run(t, Only(' '))] != ' '
  {
    var n := Run(t, Only(' '));
    var run := t[..n];
    forall i | 0 <= i < n ensures run[i] == ' ' {
      assert In(t[i], Only(' '));
    }
    if n < |t| {
      assert !In(t[n], Only(' '));
    }
  }

  /** One step of `Sentences` when the text has a match: the first piece,
      then the rest after the run. */
  lemma SentencesStep(s: seq<char>)
    requires Cut(s) < |s|
    ensures 0 < Cut(s) && 0 < Gap(s) && Cut(s) + Gap(s) <= |s|
    ensures Sentences(s) == [s[..Cut(s)]] + Sentences(s[Cut(s) + Gap(s)..])
    ensures Gaps(s) == [Gap(s)] + Gaps(s[Cut(s) + Gap(s)..])
  {
    assert In(s[Cut(s)..][0], Only(' '));
  }

  /** There is one dropped run between each two pieces. */
  lemma {:induction false} GapsLength(s: seq<char>)
    ensures |Gaps(s)| + 1 == |Sentences(s)|
    decreases |s|
  {
    if Cut(s) < |s| {
      SentencesStep(s);
      GapsLength(s[Cut(s) + Gap(s)..]);
    }
  }

  /** The parts of that step: a piece, a run of spaces, and a rest that does
      not start with a space. */
  lemma SentencesStepParts(s: seq<char>)
    requires Cut(s) < |s|
    ensures Cut(s) + Gap(s) <= |s|
    ensures s == s[..Cut(s)] + Repeat(' ', Gap(s)) + s[Cut(s) + Gap(s)..]
    ensures Cut(s) + Gap(s) < |s| ==> s[Cut(s) + Gap(s)] != ' '
  {
    var k, n := Cut(s), Gap(s);
    var t := s[k..];
    SpaceRun(t);
    assert t[..n] == s[k..k + n];
    assert s == s[..k] + s[k..k + n] + s[k + n..];
    if k + n < |s| {
      assert t[n] == s[k + n];
    }
  }

  /** The piece of that step has no match inside and ends in a terminator. */
  lemma SentencesStepPiece(s: seq<char>)
    requires Cut(s) < |s|
    ensures 0 < Cut(s) && NoCut(s[..Cut(s)]) && IsTerminator(s[Cut(s) - 1])
  {
    var k := Cut(s);
    var a := s[..k];
    forall j | 0 < j < k ensures !CutAt(a, j) {
      assert !CutAt(s, j);
      assert a[j - 1] == s[j - 1] && a[j] == s[j];
    }
  }

  /** Nothing but the dropped runs is lost: the text is its pieces with the
      runs, each one or more spaces, put back between them. */
  lemma {:induction false} SentencesRebuild(s: seq<char>)
    ensures |Gaps(s)| + 1 == |Sentences(s)|
    ensures Weave(Sentences(s), Gaps(s)) == s
    ensures forall i :: 0 <= i < |Gaps(s)| ==> Gaps(s)[i] > 0
    decreases |s|
  {
    GapsLength(s);
    if Cut(s) < |s| {
      SentencesStep(s);
      SentencesStepParts(s);
      var k := Cut(s);
      var rest := s[k + Gap(s)..];
      SentencesRebuild(rest);
      var ps := Sentences(s);
      assert ps[0] == s[..k];
      assert ps[1..] == Sentences(rest);
    }
  }

  /** The first piece is a prefix of the text. */
  lemma SentenceHead(s: seq<char>)
    ensures |Sentences(s)[0]| <= |s| && Sentences(s)[0] == s[..|Sentences(s)[0]|]
  {
  }

  lemma ShapeCons(a: seq<char>, qs: seq<seq<char>>)
    requires NoCut(a) && |a| > 0 && IsTerminator(a[|a| - 1])
    requires |qs| > 0 && SentenceShape(qs) && (|qs[0]| == 0 || qs[0][0] != ' ')
    ensures SentenceShape([a] + qs)
  {
    var ps := [a] + qs;
    assert forall i :: 0 < i < |ps| ==> ps[i] == qs[i - 1];
  }

  lemma ShapeTail(ps: seq<seq<char>>)
    requires |ps| > 0 && SentenceShape(ps)
    ensures SentenceShape(ps[1..])
  {
    assert forall i :: 0 <= i < |ps| - 1 ==> ps[1..][i] == ps[i + 1];
  }

  /** The pieces have the shape of a split: no match inside any of them, a
      terminator ending every piece but the last, and no piece but the first
      starting with a space. */
  lemma {:induction false} SentencesShape(s: seq<char>)
    ensures SentenceShape(Sentences(s))
    decreases |s|
  {
    if Cut(s) < |s| {
      SentencesStep(s);
      SentencesStepPiece(s);
      var k := Cut(s);
      var rest := s[k + Gap(s)..];
      SentencesShape(rest);
      RestHead(s);
      ShapeCons(s[..k], Sentences(rest));
    } else {
      ShapeSingle(s);
    }
  }

  /** After a match, the next piece does not start with a space. */
  lemma RestHead(s: seq<char>)
    requires Cut(s) < |s|
    ensures Cut(s) + Gap(s) <= |s|
    ensures var qs := Sentences(s[Cut(s) + Gap(s)..]); |qs[0]| == 0 || qs[0][0] != ' '
  {
    SentencesStepParts(s);
    var rest := s[Cut(s) + Gap(s)..];
    SentenceHead(rest);
    var q := Sentences(rest)[0];
    if |q| > 0 {
      assert q[0] == rest[0];
    }
  }

  lemma ShapeSingle(s: seq<char>)
    requires Cut(s) == |s|
    ensures SentenceShape(Sentences(s))
  {
    assert NoCut(s);
    assert Sentences(s) == [s];
  }

  /** Joining one piece to the rest puts the first match right after it. */
  lemma JoinCut(a: seq<char>, rest: seq<char>)
    requires NoCut(a) && |a| > 0 && IsTerminator(a[|a| - 1])
    requires |rest| == 0 || rest[0] != ' '
    ensures Cut(a + " " + rest) == |a|
    ensures Gap(a + " " + rest) == 1
    ensures (a + " " + rest)[..|a|] == a && (a + " " + rest)[|a| + 1..] == rest
  {
    var s := a + " " + rest;
    forall j | 0 <= j < |a| ensures !CutAt(s, j) {
      if CutAt(s, j) { assert CutAt(a, j); }
    }
    FirstCutIs(s, 0, |a|);
    var t := s[|a|..];
    assert t == " " + rest;
    RunIs(t, Only(' '), 1);
  }

  /** The first character of joined pieces is that of the first piece, when
      it has one. */
  lemma JoinFirst(ps: seq<seq<char>>)
    requires |ps| > 0 && |ps[0]| > 0
    ensures |Join(ps)| > 0 && Join(ps)[0] == ps[0][0]
  {
  }

  /** Splitting a piece joined to the rest cuts that piece off. */
  lemma JoinStep(a: seq<char>, rest: seq<char>)
    requires NoCut(a) && |a| > 0 && IsTerminator(a[|a| - 1])
    requires |rest| == 0 || rest[0] != ' '
    ensures Sentences(a + " " + rest) == [a] + Sentences(rest)
  {
    var s := a + " " + rest;
    JoinCut(a, rest);
    SentencesStep(s);
  }

  /** A single piece with no match inside is not split. */
  lemma JoinSingle(ps: seq<seq<char>>)
    requires |ps| == 1 && NoCut(ps[0])
    ensures Sentences(Join(ps)) == ps
  {
    var s := Join(ps);
    assert s == ps[0];
    FirstCutIs(s, 0, |s|);
    assert Cut(s) == |s|;
  }

  /** The inverse direction: pieces of the shape of a split, joined by single
      spaces, split back into the same pieces. */
  lemma {:induction false} SentencesOfJoin(ps: seq<seq<char>>)
    requires |ps| > 0 && SentenceShape(ps)
    ensures Sentences(Join(ps)) == ps
    decreases |ps|
  {
    if |ps| == 1 {
      JoinSingle(ps);
    } else {
      var tail := ps[1..];
      var rest := Join(tail);
      ShapeTail(ps);
      assert |rest| == 0 || rest[0] != ' ' by {
        if |tail[0]| > 0 {
          JoinFirst(tail);
        } else {
          assert |tail| == 1;
        }
      }
      JoinStep(ps[0], rest);
      SentencesOfJoin(tail);
      assert Join(ps) == ps[0] + " " + rest;
      assert [ps[0]] + tail == ps;
    }
  }

  // ---------------------------------------------------------------------------
  // Chunking (voice.py:24-39)

  /** Each piece cleaned, keeping the ones of at least five characters. */
  function Kept(ps: seq<seq<char>>): (ks: seq<seq<char>>)
    ensures forall i :: 0 <= i < |ks| ==> Phrase(ks[i]) && |ks[i]| >= 5 && AllAscii(ks[i])
    ensures |ks| <= |ps|
    decreases |ps|
  {
    if |ps| == 0 then []
    else
      var c := Clean(ps[0]);
      var rest := Kept(ps[1..]);
      if |c| < 5 then rest
      else
        assert forall i :: 0 < i <= |rest| ==> ([c] + rest)[i] == rest[i - 1];
        [c] + rest
  }

  /** Keeping works piece by piece: it distributes over concatenation, and a
      single piece is kept, cleaned, exactly when its cleaned form has at least
      five characters. */
  lemma {:induction false} KeptAppend(a: seq<seq<char>>, b: seq<seq<char>>)
    ensures Kept(a + b) == Kept(a) + Kept(b)
    ensures |a| == 1 ==> Kept(a) == (if |Clean(a[0])| >= 5 then [Clean(a[0])] else [])
    decreases |a|
  {
    if |a| > 0 {
      assert (a + b)[1..] == a[1..] + b;
      KeptAppend(a[1..], b);
      var c := Clean(a[0]);
      if |c| >= 5 {
        Assoc([c], Kept(a[1..]), Kept(b));
      }
    } else {
      assert a + b == b;
    }
  }

  /** `chunk_text`: the kept sentences packed greedily; a sentence joins the
      buffer when `len(current) + len(s) < max_chars`. */
  function Chunk(text: seq<char>, maxChars: int): seq<seq<char>> {
    Greedy(Kept(Sentences(text)), maxChars, 0)
  }

  /** The kept sentences behind each chunk; no sentence is lost, split,
      repeated or moved, and each chunk is its sentences joined by single
      spaces. */
  lemma ChunkKeepsSentences(text: seq<char>, maxChars: int)
    ensures var r := Chunk(text, maxChars);
            var ks := Kept(Sentences(text));
            var g := Groups(ks, maxChars, 0);
      && r == Chunks(g)
      && Flatten(g) == ks
      && Join(NonEmpty(r)) == Join(ks)
      && (forall i :: 0 <= i < |r| ==> SingleSpaced(r[i]))
  {
    var ks := Kept(Sentences(text));
    GreedyGroups(ks, maxChars, 0);
    JoinChunks(Groups(ks, maxChars, 0));
  }

  /** Every chunk made of two or more sentences has at most `max_chars`
      characters; the first chunk, whose buffer starts with a space, has
      fewer. A chunk of one sentence can be any length. */
  lemma ChunkBound(text: seq<char>, maxChars: int)
    ensures var r := Chunk(text, maxChars);
            var g := Groups(Kept(Sentences(text)), maxChars, 0);
      && |r| == |g|
      && (r != [] && r[0] != [] ==> |r[0]| < maxChars)
      && (forall i :: 0 < i < |r| && |g[i]| >= 2 ==> |r[i]| <= maxChars)
  {
    GreedyBound(Kept(Sentences(text)), maxChars, 0);
  }

  /** A chunk is closed only when the next sentence would take the buffer to
      `max_chars` or beyond. */
  lemma ChunkGreedy(text: seq<char>, maxChars: int)
    ensures var r := Chunk(text, maxChars);
            var g := Groups(Kept(Sentences(text)), maxChars, 0);
      && |r| == |g|
      && (|r| >= 2 && r[0] != [] ==> |g[1]| > 0 && |r[0]| + 1 + |g[1][0]| >= maxChars)
      && (forall i :: 0 < i < |r| - 1 ==> NextOverflows(r, g, i, maxChars, 0))
  {
    GreedyMaximal(Kept(Sentences(text)), maxChars, 0);
  }

  /** No chunks exactly when no sentence is kept; only the first chunk can be
      empty, and it is exactly when the first kept sentence alone reaches
      `max_chars`. */
  lemma ChunkEmpty(text: seq<char>, maxChars: int)
    ensures var r := Chunk(text, maxChars);
            var ks := Kept(Sentences(text));
      && (r == [] <==> ks == [])
      && (forall i :: 0 < i < |r| ==> r[i] != [])
      && (r != [] ==> (r[0] == [] <==> |ks[0]| >= maxChars))
  {
    GreedyEmpty(Kept(Sentences(text)), maxChars, 0);
  }

  // ---------------------------------------------------------------------------
  // Output name (voice.py:78-80)

  /** A file extension as `os.path.splitext` finds it on POSIX: a dot
      followed by anything but dots and slashes. */
  predicate Extension(e: seq<char>) {
    |e| > 0 && e[0] == '.' && forall j :: 1 <= j < |e| ==> e[j] != '.' && e[j] != '/'
  }

  /** No slash at or after position `j`. */
  predicate NoSlashFrom(s: seq<char>, j: nat) {
    forall k :: j <= k < |s| ==> s[k] != '/'
  }

  /** The last path component holds something other than dots, so a dot
      after it starts an extension and not a hidden-file name. */
  predicate HasStem(root: seq<char>) {
    exists j :: 0 <= j < |root| && root[j] != '.' && root[j] != '/' && NoSlashFrom(root, j)
  }

  /** Index of the last `c` in `s`, or -1 (`str.rfind`). */
  function LastIndex(s: seq<char>, c: char): (i: int)
    ensures -1 <= i < |s|
    ensures i >= 0 ==> s[i] == c
    ensures forall j :: i < j < |s| ==> s[j] != c
    decreases |s|
  {
    if |s| == 0 then -1 else if s[|s| - 1] == c then |s| - 1 else LastIndex(s[..|s| - 1], c)
  }

  datatype Parts = Parts(root: seq<char>, ext: seq<char>)

  /** `os.path.splitext` on POSIX: split at the last dot of the last path
      component, unless everything before it in that component is dots. */
  function SplitExt(p: seq<char>): (r: Parts)
    ensures r.root + r.ext == p
  {
    var dot := LastIndex(p, '.');
    var sep := LastIndex(p, '/');
    if dot > sep && exists j :: sep + 1 <= j < dot && p[j] != '.' then Parts(p[..dot], p[dot..])
    else Parts(p, [])
  }

  /** What `SplitExt` finds is an extension that follows a stem. */
  lemma SplitExtFound(p: seq<char>)
    ensures var r := SplitExt(p);
      r.ext != [] ==> Extension(r.ext) && HasStem(r.root)
  {
    var dot := LastIndex(p, '.');
    var sep := LastIndex(p, '/');
    var r := SplitExt(p);
    if r.ext != [] {
      var j :| sep + 1 <= j < dot && p[j] != '.';
      assert r.root[j] == p[j];
      assert NoSlashFrom(r.root, j);
    }
  }

  /** And it misses none: whenever the path ends in an extension that follows
      a stem, that is the extension `SplitExt` returns. */
  lemma SplitExtUnique(p: seq<char>, i: nat)
    requires i <= |p| && Extension(p[i..]) && HasStem(p[..i])
    ensures SplitExt(p) == Parts(p[..i], p[i..])
  {
    var dot := LastIndex(p, '.');
    var sep := LastIndex(p, '/');
    var root := p[..i];
    assert p[i] == '.' by { assert p[i..][0] == p[i]; }
    assert dot == i;
    assert sep < i;
    var j :| 0 <= j < |root| && root[j] != '.' && root[j] != '/' && NoSlashFrom(root, j);
    assert j > sep;
    assert sep + 1 <= j < dot && p[j] != '.';
  }

  predicate EndsWith(s: seq<char>, suffix: seq<char>) {
    |suffix| <= |s| && s[|s| - |suffix|..] == suffix
  }

  /** The file `main` writes to: with `--mp3`, a name not already ending in
      `.mp3` has its extension replaced by `.mp3`. */
  function OutputName(out: seq<char>, mp3: bool): seq<char> {
    if mp3 && !EndsWith(out, ".mp3") then SplitExt(out).root + ".mp3" else out
  }

  /** With `--mp3` the name ends in `.mp3` and keeps everything of `out` but
      its extension; without it, or when `out` already ends in `.mp3`, `out`
      is kept; applying the rule again changes nothing. */
  lemma OutputNameSpec(out: seq<char>, mp3: bool)
    ensures var r := OutputName(out, mp3);
      && (mp3 ==> EndsWith(r, ".mp3"))
      && (!mp3 || EndsWith(out, ".mp3") ==> r == out)
      && (mp3 && !EndsWith(out, ".mp3") ==> r[..|r| - 4] + SplitExt(out).ext == out)
      && OutputName(r, mp3) == r
  {
    var r := OutputName(out, mp3);
    if mp3 && !EndsWith(out, ".mp3") {
      var root := SplitExt(out).root;
      assert r[..|r| - 4] == root;
      assert r[|r| - 4..] == ".mp3";
    }
  }

  // ---------------------------------------------------------------------------
  // Preparing a run (voice.py:77-86)

  /** What `main` synthesizes: where to and which chunks. */
  datatype Job = Job(outFile: seq<char>, chunks: seq<seq<char>>)

  datatype Failure = NoValidText   // voice.py:84-86

  /** The input text, once read, turned into a job; the chunker runs with its
      default budget. */
  function Prepare(raw: seq<char>, out: seq<char>, mp3: bool): Result<Job, Failure> {
    var chunks := Chunk(raw, DefaultMaxChars);
    if |chunks| == 0 then Err(NoValidText) else Ok(Job(OutputName(out, mp3), chunks))
  }

  /** A run stops exactly when no sentence of the input survives cleaning
      with five characters or more. */
  lemma PrepareOutcome(raw: seq<char>, out: seq<char>, mp3: bool)
    ensures Prepare(raw, out, mp3).Err? <==> Kept(Sentences(raw)) == []
    ensures Prepare(raw, out, mp3).Ok? ==> EndsWith(Prepare(raw, out, mp3).value.outFile, ".mp3") || !mp3
  {
    ChunkEmpty(raw, DefaultMaxChars);
    OutputNameSpec(out, mp3);
  }
}
