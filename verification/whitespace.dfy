/**
 Python's whitespace handling as both scripts use it: `str.split()`,
 `" ".join(...)`, `re.sub(r"\s+", " ", s)` and `str.strip()`. The central
 fact is `CollapseStrip`: collapsing then stripping is the same as splitting
 into words and joining them with single spaces.
 */
module Whitespace {
  import opened CharClasses

  /** Every character of `s` is whitespace. */
  predicate Blank(s: seq<char>) {
    forall i :: 0 <= i < |s| ==> IsSpace(s[i])
  }

  /** `s` contains no whitespace at all. */
  predicate NoSpace(s: seq<char>) {
    forall i :: 0 <= i < |s| ==> !IsSpace(s[i])
  }

  /** The shape of normalised text: its only whitespace characters are single
      U+0020 spaces, never first, never last, never next to another one. */
  ghost predicate SingleSpaced(t: seq<char>) {
    && (forall i :: 0 <= i < |t| && IsSpace(t[i]) ==> t[i] == ' ' && 0 < i < |t| - 1)
    && (forall i, j :: 0 <= i < j < |t| && j == i + 1 && IsSpace(t[i]) ==> !IsSpace(t[j]))
  }

  /** A non-empty single-spaced string; what the chunkers pack. */
  ghost predicate Phrase(t: seq<char>) {
    |t| > 0 && SingleSpaced(t)
  }

  ghost predicate Phrases(ts: seq<seq<char>>) {
    forall i :: 0 <= i < |ts| ==> Phrase(ts[i])
  }

  /** Non-empty and free of whitespace: what `split()` returns. */
  predicate Words(ws: seq<seq<char>>) {
    forall i :: 0 <= i < |ws| ==> |ws[i]| > 0 && NoSpace(ws[i])
  }

  /** `s.split()`: the maximal runs of non-whitespace, in order. */
  function Split(s: seq<char>): (ws: seq<seq<char>>)
    ensures Words(ws)
    decreases |s|
  {
    if |s| == 0 then []
    else if IsSpace(s[0]) then Split(s[1..])
    else
      var n := Run(s, NonSpace);
      [s[..n]] + Split(s[n..])
  }

  /** `" ".join(ws)`. */
  function Join(ws: seq<seq<char>>): seq<char>
    decreases |ws|
  {
    if |ws| == 0 then []
    else if |ws| == 1 then ws[0]
    else ws[0] + " " + Join(ws[1..])
  }

  /** `re.sub(r"\s+", " ", s)`: every maximal run of whitespace becomes one space. */
  function Collapse(s: seq<char>): (r: seq<char>)
    ensures |r| <= |s|
    ensures forall i :: 0 <= i < |r| && IsSpace(r[i]) ==> r[i] == ' '
    decreases |s|
  {
    if |s| == 0 then []
    else if IsSpace(s[0]) then
      var n := Run(s, Space);
      [' '] + Collapse(s[n..])
    else [s[0]] + Collapse(s[1..])
  }

  /** `s.strip()`: drop leading and trailing whitespace. */
  function Strip(s: seq<char>): (r: seq<char>)
    ensures |r| <= |s|
    ensures |r| > 0 ==> !IsSpace(r[0]) && !IsSpace(r[|r| - 1])
    ensures Blank(s) ==> r == []
  {
    var a := Run(s, Space);
    var t := s[a..];
    var r := t[..|t| - TrailRun(t, Space)];
    assert |r| > 0 ==> r[0] == s[a] && r[|r| - 1] == t[|r| - 1];
    r
  }

  // ---------------------------------------------------------------------------
  // Strip

  /** Stripping whitespace frames off a string whose ends are not whitespace
      gives back that string. */
  lemma StripFrame(p: seq<char>, t: seq<char>, q: seq<char>)
    requires Blank(p) && Blank(q)
    requires |t| > 0 && !IsSpace(t[0]) && !IsSpace(t[|t| - 1])
    ensures Strip(p + t + q) == t
  {
    var s := p + t + q;
    assert s[|p|] == t[0];
    RunIs(s, Space, |p|);
    var u := s[|p|..];
    assert u == t + q;
    assert u[|t| - 1] == t[|t| - 1];
    TrailRunIs(u, Space, |q|);
    assert u[..|t|] == t;
  }

  lemma StripPhrase(t: seq<char>)
    requires |t| > 0 ==> !IsSpace(t[0]) && !IsSpace(t[|t| - 1])
    ensures Strip(t) == t
    ensures |t| > 0 ==> Strip(" " + t) == t
  {
    if |t| > 0 {
      StripFrame([], t, []);
      assert [] + t + [] == t;
      StripFrame(" ", t, []);
      assert " " + t + [] == " " + t;
    } else {
      assert Blank(t);
    }
  }

  lemma SingleSpacedEdges(t: seq<char>)
    requires SingleSpaced(t)
    ensures |t| > 0 ==> !IsSpace(t[0]) && !IsSpace(t[|t| - 1])
  {
  }

  // ---------------------------------------------------------------------------
  // Split

  /** Leading whitespace does not change the words. */
  lemma {:induction false} SplitSkip(s: seq<char>, n: nat)
    requires n <= |s| && Blank(s[..n])
    ensures Split(s) == Split(s[n..])
    decreases n
  {
    if n > 0 {
      assert IsSpace(s[..n][0]);
      var t := s[1..][..n - 1];
      forall i | 0 <= i < |t| ensures IsSpace(t[i]) {
        assert t[i] == s[..n][i + 1];
      }
      SplitSkip(s[1..], n - 1);
      assert s[1..][n - 1..] == s[n..];
    }
  }

  /** A string has no words exactly when it is all whitespace. */
  lemma {:induction false} SplitEmpty(s: seq<char>)
    ensures Split(s) == [] <==> Blank(s)
    decreases |s|
  {
    if |s| > 0 {
      if IsSpace(s[0]) {
        SplitEmpty(s[1..]);
        if Blank(s[1..]) {
          forall i | 0 <= i < |s| ensures IsSpace(s[i]) {
            if i > 0 { assert s[i] == s[1..][i - 1]; }
          }
        }
      }
    }
  }

  /** A word splits to itself. */
  lemma SplitWord(w: seq<char>)
    requires |w| > 0 && NoSpace(w)
    ensures Split(w) == [w]
  {
    RunIs(w, NonSpace, |w|);
    assert w[..|w|] == w;
    assert w[|w|..] == [];
  }

  /** A single separating space splits the words of the two sides apart. */
  lemma {:induction false} SplitSep(a: seq<char>, b: seq<char>)
    ensures Split(a + " " + b) == Split(a) + Split(b)
    decreases |a|
  {
    var s := a + " " + b;
    if |a| == 0 {
      assert s == " " + b;
      assert s[1..] == b;
    } else if IsSpace(a[0]) {
      assert s[1..] == a[1..] + " " + b;
      SplitSep(a[1..], b);
      assert Split(s) == Split(s[1..]);
      assert Split(a) == Split(a[1..]);
    } else {
      var n := Run(a, NonSpace);
      var w := a[..n];
      assert s[n] == if n < |a| then a[n] else ' ';
      RunIs(s, NonSpace, n);
      assert s[..n] == w;
      assert Split(s) == [w] + Split(s[n..]);
      assert Split(a) == [w] + Split(a[n..]);
      if n == |a| {
        assert s[n..] == " " + b;
        assert (" " + b)[1..] == b;
        assert a[n..] == [];
        assert Split(s[n..]) == Split(b);
      } else {
        assert s[n..] == a[n..] + " " + b;
        SplitSep(a[n..], b);
        Assoc([w], Split(a[n..]), Split(b));
      }
    }
  }

  /** Words joined by single spaces split back into the same words. */
  lemma {:induction false} SplitJoin(ws: seq<seq<char>>)
    requires Words(ws)
    ensures Split(Join(ws)) == ws
    decreases |ws|
  {
    if |ws| == 1 {
      SplitWord(ws[0]);
    } else if |ws| > 1 {
      SplitJoin(ws[1..]);
      SplitSep(ws[0], Join(ws[1..]));
      SplitWord(ws[0]);
      assert [ws[0]] + ws[1..] == ws;
    }
  }

  // ---------------------------------------------------------------------------
  // Join

  /** Single-spaced phrases joined by single spaces are single-spaced. */
  lemma SingleSpacedSep(a: seq<char>, b: seq<char>)
    requires Phrase(a) && Phrase(b)
    ensures Phrase(a + " " + b)
  {
    var t := a + " " + b;
    forall i | 0 <= i < |t| && IsSpace(t[i])
      ensures t[i] == ' ' && 0 < i < |t| - 1 && !IsSpace(t[i + 1])
    {
      if i < |a| {
        assert t[i] == a[i];
        assert t[i + 1] == a[i + 1];
      } else if i == |a| {
        assert t[i + 1] == b[0];
      } else {
        assert t[i] == b[i - |a| - 1];
        if i + 1 < |t| { assert t[i + 1] == b[i - |a|]; }
      }
    }
  }

  lemma WordIsPhrase(w: seq<char>)
    requires |w| > 0 && NoSpace(w)
    ensures Phrase(w)
  {
  }

  /** Joining phrases gives a phrase. */
  lemma {:induction false} JoinPhrases(ws: seq<seq<char>>)
    requires Phrases(ws) && |ws| > 0
    ensures Phrase(Join(ws))
    decreases |ws|
  {
    if |ws| > 1 {
      JoinPhrases(ws[1..]);
      SingleSpacedSep(ws[0], Join(ws[1..]));
    }
  }

  lemma JoinWords(ws: seq<seq<char>>)
    requires Words(ws)
    ensures SingleSpaced(Join(ws))
  {
    if |ws| > 0 {
      forall i | 0 <= i < |ws| ensures Phrase(ws[i]) { WordIsPhrase(ws[i]); }
      JoinPhrases(ws);
    }
  }

  /** Appending one more element to a join adds one space and that element. */
  lemma {:induction false} JoinSnoc(ws: seq<seq<char>>, w: seq<char>)
    requires |ws| > 0
    ensures Join(ws + [w]) == Join(ws) + " " + w
    decreases |ws|
  {
    if |ws| == 1 {
      assert ws + [w] == [ws[0], w];
    } else {
      assert (ws + [w])[1..] == ws[1..] + [w];
      JoinSnoc(ws[1..], w);
    }
  }

  /** Joining two non-empty lists is joining their joins. */
  lemma {:induction false} JoinAppend(a: seq<seq<char>>, b: seq<seq<char>>)
    requires |a| > 0 && |b| > 0
    ensures Join(a + b) == Join(a) + " " + Join(b)
    decreases |a|
  {
    if |a| == 1 {
      assert a + b == [a[0]] + b;
      assert (a + b)[1..] == b;
    } else {
      assert (a + b)[1..] == a[1..] + b;
      JoinAppend(a[1..], b);
    }
  }

  /** The join of non-empty pieces is non-empty, and is empty for no pieces. */
  lemma JoinLength(ws: seq<seq<char>>)
    requires forall i :: 0 <= i < |ws| ==> |ws[i]| > 0
    ensures |Join(ws)| > 0 <==> |ws| > 0
  {
    if |ws| > 1 {
      assert |Join(ws)| >= |ws[0]|;
    }
  }

  /** A suffix of a single-spaced string that starts on a non-space is
      single-spaced. */
  lemma SingleSpacedSuffix(t: seq<char>, m: nat)
    requires SingleSpaced(t) && m < |t| && !IsSpace(t[m])
    ensures SingleSpaced(t[m..])
  {
    var u := t[m..];
    forall i | 0 <= i < |u| && IsSpace(u[i]) ensures u[i] == ' ' && 0 < i < |u| - 1 {
      assert u[i] == t[m + i];
    }
    forall i, j | 0 <= i < j < |u| && j == i + 1 && IsSpace(u[i]) ensures !IsSpace(u[j]) {
      assert u[i] == t[m + i] && u[j] == t[m + j];
    }
  }

  /** Splitting a single-spaced string and joining the words gives it back. */
  lemma {:induction false} JoinSplit(t: seq<char>)
    requires SingleSpaced(t)
    ensures Join(Split(t)) == t
    decreases |t|
  {
    if |t| > 0 {
      var n := Run(t, NonSpace);
      var w := t[..n];
      assert n > 0;
      if n < |t| {
        assert t[n] == ' ' && n < |t| - 1 && !IsSpace(t[n + 1]);
        var u := t[n + 1..];
        SingleSpacedSuffix(t, n + 1);
        JoinSplit(u);
        assert Split(t) == [w] + Split(u) by {
          assert t[n..][0] == ' ' && t[n..][1..] == u;
        }
        assert Split(u) != [] by {
          SplitEmpty(u);
          assert !IsSpace(u[0]);
        }
        assert Join([w] + Split(u)) == w + " " + Join(Split(u)) by {
          assert ([w] + Split(u))[1..] == Split(u);
        }
        assert t == w + " " + u;
      } else {
        assert w == t;
        assert t[n..] == [];
      }
    }
  }

  // ---------------------------------------------------------------------------
  // Collapse

  /** Collapse copies a leading word unchanged. */
  lemma {:induction false} CollapseWord(s: seq<char>)
    ensures Collapse(s) == s[..Run(s, NonSpace)] + Collapse(s[Run(s, NonSpace)..])
    decreases |s|
  {
    var n := Run(s, NonSpace);
    if n > 0 {
      var t := s[1..];
      assert Collapse(s) == [s[0]] + Collapse(t);
      assert Run(t, NonSpace) == n - 1;
      CollapseWord(t);
      assert t[..n - 1] == s[1..n] && t[n - 1..] == s[n..];
      Assoc([s[0]], s[1..n], Collapse(s[n..]));
      assert s[..n] == [s[0]] + s[1..n];
    } else {
      assert s[..n] == [] && s[n..] == s;
    }
  }

  function LeadOf(s: seq<char>): seq<char> {
    if |s| > 0 && IsSpace(s[0]) then " " else ""
  }

  function TrailOf(s: seq<char>): seq<char> {
    if |s| > 0 && IsSpace(s[|s| - 1]) then " " else ""
  }

  /** What `Collapse` produces: the words joined by single spaces, framed by
      one space at each end of the input that had whitespace there. */
  lemma {:induction false} CollapseShape(s: seq<char>)
    ensures Split(s) == [] ==> Collapse(s) == LeadOf(s)
    ensures Split(s) != [] ==> Collapse(s) == LeadOf(s) + Join(Split(s)) + TrailOf(s)
  {
    if |s| == 0 {
      assert Collapse(s) == [] == LeadOf(s);
    } else if IsSpace(s[0]) {
      assert LeadOf(s) == " ";
      CollapseShapeSpace(s);
    } else {
      assert LeadOf(s) == "";
      CollapseShapeWord(s);
      assert "" + Join(Split(s)) == Join(Split(s));
    }
  }

  lemma {:induction false} CollapseShapeSpace(s: seq<char>)
    requires |s| > 0 && IsSpace(s[0])
    ensures Split(s) == [] ==> Collapse(s) == " "
    ensures Split(s) != [] ==> Collapse(s) == " " + Join(Split(s)) + TrailOf(s)
    decreases |s|
  {
    var n := Run(s, Space);
    var t := s[n..];
    assert Split(s) == Split(t) by {
      SplitSkip(s, n);
    }
    assert Collapse(s) == " " + Collapse(t);
    if |t| == 0 {
      assert Split(t) == [];
    } else {
      assert !IsSpace(t[0]);
      assert TrailOf(t) == TrailOf(s) by {
        assert t[|t| - 1] == s[|s| - 1];
      }
      CollapseShapeWord(t);
      Assoc(" ", Join(Split(t)), TrailOf(t));
    }
  }

  lemma {:induction false} CollapseShapeWord(s: seq<char>)
    requires |s| > 0 && !IsSpace(s[0])
    ensures Split(s) != []
    ensures Collapse(s) == Join(Split(s)) + TrailOf(s)
    decreases |s|
  {
    var n := Run(s, NonSpace);
    var w := s[..n];
    var u := s[n..];
    assert Collapse(s) == w + Collapse(u) by {
      CollapseWord(s);
    }
    var ws := [w] + Split(u);
    assert Split(s) == ws;
    if |u| == 0 {
      assert w == s;
      assert Collapse(u) == [] && Split(u) == [];
      assert TrailOf(s) == "" by {
        assert In(s[n - 1], NonSpace);
      }
      assert Join(ws) == w;
      assert Collapse(s) == w + [];
      assert w + [] == Join(Split(s)) + TrailOf(s);
    } else {
      assert IsSpace(u[0]);
      assert TrailOf(u) == TrailOf(s) by {
        assert u[|u| - 1] == s[|s| - 1];
      }
      CollapseShapeSpace(u);
      if Split(u) == [] {
        assert TrailOf(s) == " " by {
          SplitEmpty(u);
          assert IsSpace(u[|u| - 1]);
        }
        assert Join(ws) == w;
        assert Collapse(s) == w + " ";
        assert w + " " == Join(Split(s)) + TrailOf(s);
      } else {
        assert Join(ws) == w + " " + Join(Split(u)) by {
          assert ws[1..] == Split(u);
        }
        Regroup(w, " ", Join(Split(u)), TrailOf(s));
      }
    }
  }

  lemma Assoc<T>(a: seq<T>, b: seq<T>, c: seq<T>)
    ensures a + (b + c) == a + b + c
  {
  }

  lemma Regroup(a: seq<char>, b: seq<char>, c: seq<char>, d: seq<char>)
    ensures a + (b + c + d) == a + b + c + d
  {
  }

  /** `re.sub(r"\s+", " ", s).strip()` is `" ".join(s.split())`. */
  lemma CollapseStrip(s: seq<char>)
    ensures Strip(Collapse(s)) == Join(Split(s))
  {
    CollapseShape(s);
    if Split(s) == [] {
      assert Blank(LeadOf(s));
    } else {
      var j := Join(Split(s));
      JoinWords(Split(s));
      JoinLength(Split(s));
      StripFrame(LeadOf(s), j, TrailOf(s));
    }
  }

  /** Stripping keeps characters of the text. */
  lemma StripIn(t: seq<char>)
    ensures forall i :: 0 <= i < |Strip(t)| ==> Strip(t)[i] in t
  {
    var a := Run(t, Space);
    var u := t[a..];
    forall i | 0 <= i < |Strip(t)| ensures Strip(t)[i] in t {
      assert Strip(t)[i] == u[i] == t[a + i];
    }
  }

  /** Collapsing and stripping bring in no character but the space. */
  lemma NormalisedChars(s: seq<char>)
    ensures forall i :: 0 <= i < |Strip(Collapse(s))| ==> Strip(Collapse(s))[i] == ' ' || Strip(Collapse(s))[i] in s
  {
    CollapseChars(s);
    StripIn(Collapse(s));
  }

  lemma {:induction false} CollapseChars(s: seq<char>)
    ensures forall c :: c in Collapse(s) ==> c == ' ' || c in s
    decreases |s|
  {
    if |s| > 0 {
      var n := if IsSpace(s[0]) then Run(s, Space) else 1;
      CollapseChars(s[n..]);
      forall c | c in s[n..] ensures c in s {
        var i :| 0 <= i < |s[n..]| && s[n..][i] == c;
        assert s[n + i] == c;
      }
    }
  }

  /** Hence the pair produces single-spaced text and leaves such text alone. */
  lemma Normalised(s: seq<char>)
    ensures SingleSpaced(Strip(Collapse(s)))
    ensures SingleSpaced(s) ==> Strip(Collapse(s)) == s
  {
    CollapseStrip(s);
    JoinWords(Split(s));
    if SingleSpaced(s) {
      JoinSplit(s);
    }
  }

  /** `re.sub(r"\s+", " ", s).strip()`, the last step of both clean-ups. */
  function Normalise(s: seq<char>): (r: seq<char>)
    ensures |r| <= |s|
    ensures SingleSpaced(r)
    ensures forall i :: 0 <= i < |r| ==> r[i] == ' ' || r[i] in s
  {
    Normalised(s);
    NormalisedChars(s);
    Strip(Collapse(s))
  }
}
