/**
 The greedy packing loop both chunkers share (narrator.py:24-31 and
 voice.py:25-39). `Pack` follows the loop over the literal string buffer,
 leading space and all; `Plan` follows the same decisions over the list of
 units in the buffer. `PackPlan` shows the two agree, and the properties of
 the chunks are proved about the plan.

 The scripts differ only in the fit test: narrator.py counts the separating
 space (`len(cur) + len(w) + 1 < max_chars`), voice.py does not
 (`len(current) + len(s) < max_chars`). `slack` is that difference: 1 for
 narrator.py and 0 for voice.py.
 */
module Packing {
  import opened CharClasses
  import opened Whitespace

  function Flatten<T>(xss: seq<seq<T>>): seq<T>
    decreases |xss|
  {
    if |xss| == 0 then [] else xss[0] + Flatten(xss[1..])
  }

  /** The non-empty strings of `xs`, in order. */
  function NonEmpty(xs: seq<seq<char>>): (r: seq<seq<char>>)
    ensures forall i :: 0 <= i < |r| ==> |r[i]| > 0
    decreases |xs|
  {
    if |xs| == 0 then []
    else if |xs[0]| == 0 then NonEmpty(xs[1..])
    else [xs[0]] + NonEmpty(xs[1..])
  }

  /** The loop: `cur` is the buffer, each unit is appended with a space when
      it fits and otherwise closes the buffer (stripped) and starts the next. */
  function Pack(units: seq<seq<char>>, cur: seq<char>, maxChars: int, slack: nat): seq<seq<char>>
    decreases |units|
  {
    if |units| == 0 then
      if |cur| > 0 then [Strip(cur)] else []
    else if |cur| + |units[0]| + slack < maxChars then
      Pack(units[1..], cur + " " + units[0], maxChars, slack)
    else
      [Strip(cur)] + Pack(units[1..], units[0], maxChars, slack)
  }

  /** The chunks of a text: the loop started with the empty buffer. */
  function Greedy(units: seq<seq<char>>, maxChars: int, slack: nat): seq<seq<char>> {
    Pack(units, "", maxChars, slack)
  }

  /** The buffer holding the units `buf`. The first buffer of a run was built
      from `""` by `cur += " " + w`, so it carries a leading space. */
  function Render(buf: seq<seq<char>>, first: bool): seq<char> {
    if |buf| == 0 then [] else (if first then " " else "") + Join(buf)
  }

  /** The same loop, recording which units each chunk is made of. */
  function Plan(units: seq<seq<char>>, buf: seq<seq<char>>, first: bool, maxChars: int, slack: nat)
    : (p: seq<seq<seq<char>>>)
    ensures Flatten(p) == buf + units
    decreases |units|
  {
    if |units| == 0 then
      if |buf| > 0 then
        assert [buf][1..] == [];
        [buf]
      else []
    else if |Render(buf, first)| + |units[0]| + slack < maxChars then
      assert buf + units == (buf + [units[0]]) + units[1..];
      Plan(units[1..], buf + [units[0]], first, maxChars, slack)
    else
      var rest := Plan(units[1..], [units[0]], false, maxChars, slack);
      assert ([buf] + rest)[1..] == rest;
      assert units == [units[0]] + units[1..];
      [buf] + rest
  }

  function Groups(units: seq<seq<char>>, maxChars: int, slack: nat): seq<seq<seq<char>>> {
    Plan(units, [], true, maxChars, slack)
  }

  /** The chunk text each group stands for. */
  function Chunks(p: seq<seq<seq<char>>>): (r: seq<seq<char>>)
    ensures |r| == |p|
  {
    seq(|p|, i requires 0 <= i < |p| => Join(p[i]))
  }

  /** How long a buffer may grow: once it holds two units (or one, for the
      first buffer with its leading space) it has passed the fit test. */
  predicate Within(g: seq<seq<char>>, lead: bool, maxChars: int, slack: nat) {
    (|g| >= 2 || (lead && |g| >= 1)) ==> |Render(g, lead)| + slack <= maxChars
  }

  /** Every chunk of `p` respects the bound; the first one is `lead`. */
  predicate AllWithin(p: seq<seq<seq<char>>>, lead: bool, maxChars: int, slack: nat) {
    forall i :: 0 <= i < |p| ==> Within(p[i], lead && i == 0, maxChars, slack)
  }

  /** Chunk `i` was closed because the first unit of chunk `i + 1` did not fit. */
  predicate Closed(p: seq<seq<seq<char>>>, i: nat, lead: bool, maxChars: int, slack: nat)
    requires i + 1 < |p|
  {
    |p[i + 1]| > 0 && |Render(p[i], lead && i == 0)| + |p[i + 1][0]| + slack >= maxChars
  }

  /** Only the first group, and only when it started out empty, can be empty. */
  predicate NoEmptyGroup(p: seq<seq<seq<char>>>, buf: seq<seq<char>>) {
    forall i :: 0 <= i < |p| && p[i] == [] ==> i == 0 && buf == []
  }

  predicate AllClosed(p: seq<seq<seq<char>>>, lead: bool, maxChars: int, slack: nat) {
    forall i :: 0 <= i < |p| - 1 ==> Closed(p, i, lead, maxChars, slack)
  }

  /** The first group of `p` begins with the units `buf`. */
  predicate StartsWith(p: seq<seq<seq<char>>>, buf: seq<seq<char>>) {
    |p| > 0 && |p[0]| >= |buf| && p[0][..|buf|] == buf
  }

  // ---------------------------------------------------------------------------
  // The buffer

  lemma RenderStrip(buf: seq<seq<char>>, first: bool)
    requires Phrases(buf)
    ensures Strip(Render(buf, first)) == Join(buf)
    ensures |Render(buf, first)| > 0 <==> |buf| > 0
  {
    if |buf| > 0 {
      JoinPhrases(buf);
      StripPhrase(Join(buf));
    } else {
      assert Blank(Render(buf, first));
    }
  }

  lemma RenderSnoc(buf: seq<seq<char>>, first: bool, u: seq<char>)
    requires buf == [] ==> first
    ensures Render(buf + [u], first) == Render(buf, first) + " " + u
  {
    if |buf| == 0 {
      assert buf + [u] == [u];
    } else {
      JoinSnoc(buf, u);
    }
  }

  lemma ChunksCons(g: seq<seq<char>>, rest: seq<seq<seq<char>>>)
    ensures Chunks([g] + rest) == [Join(g)] + Chunks(rest)
  {
    var p := [g] + rest;
    forall i | 0 <= i < |p| ensures Chunks(p)[i] == ([Join(g)] + Chunks(rest))[i] {
      if i > 0 { assert p[i] == rest[i - 1]; }
    }
  }

  /** The string loop and the group loop make the same decisions, and each
      chunk is the join of its group. */
  lemma {:induction false} PackPlan(units: seq<seq<char>>, buf: seq<seq<char>>, first: bool, maxChars: int, slack: nat)
    requires Phrases(units) && Phrases(buf)
    requires buf == [] ==> first
    ensures Pack(units, Render(buf, first), maxChars, slack) == Chunks(Plan(units, buf, first, maxChars, slack))
    decreases |units|
  {
    RenderStrip(buf, first);
    if |units| == 0 {
      if |buf| > 0 {
        ChunksCons(buf, []);
      }
    } else if |Render(buf, first)| + |units[0]| + slack < maxChars {
      PackPlanFits(units, buf, first, maxChars, slack);
    } else {
      PackPlanFlush(units, buf, first, maxChars, slack);
    }
  }

  lemma {:induction false} PackPlanFits(units: seq<seq<char>>, buf: seq<seq<char>>, first: bool, maxChars: int, slack: nat)
    requires Phrases(units) && Phrases(buf)
    requires buf == [] ==> first
    requires |units| > 0 && |Render(buf, first)| + |units[0]| + slack < maxChars
    ensures Pack(units, Render(buf, first), maxChars, slack) == Chunks(Plan(units, buf, first, maxChars, slack))
    decreases |units|, 0
  {
    var u := units[0];
    RenderSnoc(buf, first, u);
    assert Phrases(buf + [u]);
    PackPlan(units[1..], buf + [u], first, maxChars, slack);
  }

  lemma {:induction false} PackPlanFlush(units: seq<seq<char>>, buf: seq<seq<char>>, first: bool, maxChars: int, slack: nat)
    requires Phrases(units) && Phrases(buf)
    requires buf == [] ==> first
    requires |units| > 0 && |Render(buf, first)| + |units[0]| + slack >= maxChars
    ensures Pack(units, Render(buf, first), maxChars, slack) == Chunks(Plan(units, buf, first, maxChars, slack))
    decreases |units|, 0
  {
    var u := units[0];
    RenderStrip(buf, first);
    assert Render([u], false) == u;
    PackPlan(units[1..], [u], false, maxChars, slack);
    var rest := Plan(units[1..], [u], false, maxChars, slack);
    ChunksCons(buf, rest);
  }

  // ---------------------------------------------------------------------------
  // The plan

  /** Only a first buffer that never received a unit is an empty group. */
  lemma {:induction false} PlanNonEmpty(units: seq<seq<char>>, buf: seq<seq<char>>, first: bool, maxChars: int, slack: nat)
    ensures NoEmptyGroup(Plan(units, buf, first, maxChars, slack), buf)
    decreases |units|
  {
    if |units| > 0 {
      var u := units[0];
      if |Render(buf, first)| + |u| + slack < maxChars {
        PlanNonEmpty(units[1..], buf + [u], first, maxChars, slack);
        assert Plan(units, buf, first, maxChars, slack) == Plan(units[1..], buf + [u], first, maxChars, slack);
      } else {
        PlanNonEmpty(units[1..], [u], false, maxChars, slack);
        var rest := Plan(units[1..], [u], false, maxChars, slack);
        var p := [buf] + rest;
        assert Plan(units, buf, first, maxChars, slack) == p;
        forall i | 0 < i < |p| ensures p[i] != [] {
          assert p[i] == rest[i - 1];
        }
      }
    }
  }

  /** A buffer that is closed keeps the units it had, first among them. */
  lemma {:induction false} PlanHead(units: seq<seq<char>>, buf: seq<seq<char>>, first: bool, maxChars: int, slack: nat)
    requires |buf| > 0
    ensures StartsWith(Plan(units, buf, first, maxChars, slack), buf)
    decreases |units|
  {
    if |units| > 0 && |Render(buf, first)| + |units[0]| + slack < maxChars {
      var longer := buf + [units[0]];
      PlanHead(units[1..], longer, first, maxChars, slack);
      var p := Plan(units[1..], longer, first, maxChars, slack);
      assert Plan(units, buf, first, maxChars, slack) == p;
      assert p[0][..|buf|] == p[0][..|longer|][..|buf|];
      assert longer[..|buf|] == buf;
    } else if |units| > 0 {
      var rest := Plan(units[1..], [units[0]], false, maxChars, slack);
      assert Plan(units, buf, first, maxChars, slack) == [buf] + rest;
      assert buf[..|buf|] == buf;
    } else {
      assert buf[..|buf|] == buf;
    }
  }

  /** Every chunk respects the bound unless it is a single unit that is not
      in the first chunk. */
  lemma {:induction false} PlanBound(units: seq<seq<char>>, buf: seq<seq<char>>, first: bool, maxChars: int, slack: nat)
    requires buf == [] ==> first
    requires Within(buf, first, maxChars, slack)
    ensures AllWithin(Plan(units, buf, first, maxChars, slack), first, maxChars, slack)
    decreases |units|
  {
    if |units| > 0 {
      var u := units[0];
      if |Render(buf, first)| + |u| + slack < maxChars {
        RenderSnoc(buf, first, u);
        assert |Render(buf + [u], first)| == |Render(buf, first)| + 1 + |u|;
        PlanBound(units[1..], buf + [u], first, maxChars, slack);
      } else {
        PlanBound(units[1..], [u], false, maxChars, slack);
        var rest := Plan(units[1..], [u], false, maxChars, slack);
        var p := [buf] + rest;
        assert Plan(units, buf, first, maxChars, slack) == p;
        forall i | 0 <= i < |p| ensures Within(p[i], first && i == 0, maxChars, slack) {
          if i > 0 {
            assert p[i] == rest[i - 1];
            assert Within(rest[i - 1], false && i - 1 == 0, maxChars, slack);
          }
        }
      }
    }
  }

  /** A chunk is closed only because the next unit did not fit in it. */
  lemma {:induction false} PlanGreedy(units: seq<seq<char>>, buf: seq<seq<char>>, first: bool, maxChars: int, slack: nat)
    requires buf == [] ==> first
    ensures AllClosed(Plan(units, buf, first, maxChars, slack), first, maxChars, slack)
    decreases |units|
  {
    if |units| > 0 {
      var u := units[0];
      if |Render(buf, first)| + |u| + slack < maxChars {
        PlanGreedy(units[1..], buf + [u], first, maxChars, slack);
      } else {
        PlanGreedy(units[1..], [u], false, maxChars, slack);
        PlanHead(units[1..], [u], false, maxChars, slack);
        var rest := Plan(units[1..], [u], false, maxChars, slack);
        var p := [buf] + rest;
        assert Plan(units, buf, first, maxChars, slack) == p;
        assert rest[0][..1] == [u];
        forall i | 0 <= i < |p| - 1 ensures Closed(p, i, first, maxChars, slack) {
          if i > 0 {
            assert p[i] == rest[i - 1] && p[i + 1] == rest[i];
            assert Closed(rest, i - 1, false, maxChars, slack);
          } else {
            assert p[1] == rest[0];
          }
        }
      }
    }
  }

  /** Where the empty chunk comes from: the first unit did not fit in the
      empty buffer. */
  lemma PlanFirst(units: seq<seq<char>>, maxChars: int, slack: nat)
    ensures var p := Groups(units, maxChars, slack);
      && (p == [] <==> units == [])
      && (p != [] ==> (p[0] == [] <==> |units[0]| + slack >= maxChars))
  {
    if |units| > 0 && |units[0]| + slack < maxChars {
      assert [] + [units[0]] == [units[0]];
      PlanHead(units[1..], [units[0]], true, maxChars, slack);
    }
  }

  lemma {:induction false} FlattenPhrases(p: seq<seq<seq<char>>>)
    requires forall i :: 0 <= i < |p| ==> Phrases(p[i])
    ensures Phrases(Flatten(p))
    decreases |p|
  {
    if |p| > 0 {
      FlattenPhrases(p[1..]);
    }
  }

  lemma {:induction false} FlattenMember(p: seq<seq<seq<char>>>, i: nat, j: nat)
    requires i < |p| && j < |p[i]|
    ensures p[i][j] in Flatten(p)
    decreases i
  {
    if i > 0 {
      FlattenMember(p[1..], i - 1, j);
    } else {
      assert Flatten(p)[j] == p[0][j];
    }
  }

  /** Joining the non-empty chunks is joining all the units. */
  lemma {:induction false} JoinChunks(p: seq<seq<seq<char>>>)
    requires forall i :: 0 <= i < |p| ==> Phrases(p[i])
    ensures Join(NonEmpty(Chunks(p))) == Join(Flatten(p))
    decreases |p|
  {
    if |p| > 0 {
      var rest := p[1..];
      JoinChunks(rest);
      ChunksCons(p[0], rest);
      assert [p[0]] + rest == p;
      assert ([Join(p[0])] + Chunks(rest))[1..] == Chunks(rest);
      JoinLength(p[0]);
      if |p[0]| == 0 {
        assert Flatten(p) == [] + Flatten(rest);
        assert [] + Flatten(rest) == Flatten(rest);
        assert Chunks(p)[0] == [];
        assert NonEmpty(Chunks(p)) == NonEmpty(Chunks(rest));
      } else {
        FlattenPhrases(rest);
        JoinLength(Flatten(rest));
        JoinLength(NonEmpty(Chunks(rest)));
        var a := Join(p[0]);
        var xs := NonEmpty(Chunks(rest));
        assert NonEmpty(Chunks(p)) == [a] + xs;
        if |Flatten(rest)| == 0 {
          assert Flatten(p) == p[0] + [];
          assert p[0] + [] == p[0];
          assert [a] + xs == [a];
        } else {
          JoinAppend(p[0], Flatten(rest));
          assert ([a] + xs)[1..] == xs;
        }
      }
    }
  }

  // ---------------------------------------------------------------------------
  // The chunks of a whole text

  /** The chunks are the joins of the groups, and the groups hold exactly the
      units, in order. */
  lemma GreedyGroups(units: seq<seq<char>>, maxChars: int, slack: nat)
    requires Phrases(units)
    ensures var r := Greedy(units, maxChars, slack);
            var g := Groups(units, maxChars, slack);
      && r == Chunks(g)
      && Flatten(g) == units
      && (forall i :: 0 <= i < |g| ==> Phrases(g[i]))
      && (forall i :: 0 <= i < |r| ==> SingleSpaced(r[i]) && (|r[i]| > 0 <==> |g[i]| > 0))
  {
    var g := Groups(units, maxChars, slack);
    assert Render([], true) == "";
    PackPlan(units, [], true, maxChars, slack);
    forall i | 0 <= i < |g| ensures Phrases(g[i]) {
      forall j | 0 <= j < |g[i]| ensures Phrase(g[i][j]) {
        FlattenMember(g, i, j);
      }
    }
    forall i | 0 <= i < |g| ensures SingleSpaced(Join(g[i])) && (|Join(g[i])| > 0 <==> |g[i]| > 0) {
      JoinLength(g[i]);
      if |g[i]| > 0 { JoinPhrases(g[i]); }
    }
  }

  /** Only the first chunk can be empty, and it is empty exactly when the first
      unit did not fit in the empty buffer; no units give no chunks. */
  lemma GreedyEmpty(units: seq<seq<char>>, maxChars: int, slack: nat)
    requires Phrases(units)
    ensures var r := Greedy(units, maxChars, slack);
      && (r == [] <==> units == [])
      && (forall i :: 0 < i < |r| ==> |r[i]| > 0)
      && (r != [] ==> (r[0] == [] <==> |units[0]| + slack >= maxChars))
  {
    var g := Groups(units, maxChars, slack);
    GreedyGroups(units, maxChars, slack);
    PlanNonEmpty(units, [], true, maxChars, slack);
    PlanFirst(units, maxChars, slack);
  }

  /** The first chunk holds its leading space: with it, it stays within the
      bound; every later chunk of two or more units stays within it too. */
  lemma GreedyBound(units: seq<seq<char>>, maxChars: int, slack: nat)
    requires Phrases(units)
    ensures var r := Greedy(units, maxChars, slack);
            var g := Groups(units, maxChars, slack);
      && |r| == |g|
      && (r != [] && r[0] != [] ==> |r[0]| + 1 + slack <= maxChars)
      && (forall i :: 0 < i < |r| && |g[i]| >= 2 ==> |r[i]| + slack <= maxChars)
  {
    var r := Greedy(units, maxChars, slack);
    var g := Groups(units, maxChars, slack);
    GreedyGroups(units, maxChars, slack);
    PlanBound(units, [], true, maxChars, slack);
    if r != [] && r[0] != [] {
      assert Within(g[0], true, maxChars, slack);
    }
    forall i | 0 < i < |r| && |g[i]| >= 2 ensures |r[i]| + slack <= maxChars {
      assert Within(g[i], false, maxChars, slack);
    }
  }

  /** Chunk `i` (past the first) is followed by a chunk whose first unit
      would have taken it to the bound. */
  predicate NextOverflows(r: seq<seq<char>>, g: seq<seq<seq<char>>>, i: int, maxChars: int, slack: nat) {
    && 0 <= i && i + 1 < |r| && i + 1 < |g|
    && |g[i + 1]| > 0
    && |r[i]| + |g[i + 1][0]| + slack >= maxChars
  }

  /** A new chunk starts only when the next unit would not fit: the buffer's
      length (with the first chunk's leading space) plus the unit reaches the
      bound. */
  lemma GreedyMaximal(units: seq<seq<char>>, maxChars: int, slack: nat)
    requires Phrases(units)
    ensures var r := Greedy(units, maxChars, slack);
            var g := Groups(units, maxChars, slack);
      && |r| == |g|
      && (|r| >= 2 && r[0] != [] ==> |g[1]| > 0 && |r[0]| + 1 + |g[1][0]| + slack >= maxChars)
      && (forall i :: 0 < i < |r| - 1 ==> NextOverflows(r, g, i, maxChars, slack))
  {
    var r := Greedy(units, maxChars, slack);
    var g := Groups(units, maxChars, slack);
    assert Render([], true) == "";
    PackPlan(units, [], true, maxChars, slack);
    assert r == Chunks(g);
    PlanGreedy(units, [], true, maxChars, slack);
    if |r| >= 2 && r[0] != [] {
      assert Closed(g, 0, true, maxChars, slack);
      assert r[0] == Join(g[0]);
      assert Render(g[0], true) == " " + r[0];
    }
    forall i | 0 < i < |r| - 1 ensures NextOverflows(r, g, i, maxChars, slack) {
      assert Closed(g, i, true, maxChars, slack);
      assert Render(g[i], false) == Join(g[i]) == r[i];
    }
  }
}
