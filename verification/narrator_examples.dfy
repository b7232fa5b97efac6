/**
 Worked inputs for narrator.py's clean-up, chunking and language schedule,
 stated over arbitrary letters and words so that each covers a family of
 texts.
 */
module NarratorExamples {
  import opened CharClasses
  import opened Whitespace
  import opened Packing
  import opened Results
  import opened Narrator

  predicate Lower(c: char) {
    'a' <= c <= 'z'
  }

  /** A character that survives the clean-up as it is: not whitespace, not
      markup, and not the start of any pattern. */
  predicate Plain(c: char) {
    !IsSpace(c) && !IsMarkup(c) && c != '[' && c != ':'
  }

  predicate PlainWord(w: seq<char>) {
    |w| > 0 && forall i :: 0 <= i < |w| ==> Plain(w[i])
  }

  /** Text that is already clean stays so. */
  lemma NormaliseWord(w: seq<char>)
    requires |w| > 0 && NoSpace(w)
    ensures Normalise(w) == w
  {
    WordIsPhrase(w);
    Normalised(w);
  }

  // ---------------------------------------------------------------------------
  // Emphasis around a word is removed

  lemma BoldWord(w: seq<char>)
    requires PlainWord(w)
    ensures Sub(Bold, "**" + w + "**") == w
  {
    var s := "**" + w + "**";
    var n := |w|;
    RunIs(s[2..], Not('*'), n);
    assert MatchAt(Bold, s) == Some(Match(n + 4, w));
    assert s[n + 4..] == [];
  }

  lemma SubstituteBold(w: seq<char>)
    requires PlainWord(w)
    ensures Substitute("**" + w + "**") == w
  {
    BoldWord(w);
    SubCopies(Italic, w);
    SubCopies(Code, w);
    SubCopies(Link, w);
    SubCopies(Emoji, w);
  }

  lemma CleanBold(w: seq<char>)
    requires PlainWord(w)
    ensures Clean("**" + w + "**") == w
  {
    SubstituteBold(w);
    DropMarkupKeeps(w);
    NormaliseWord(w);
  }

  lemma CleanUnderscores(w: seq<char>)
    requires PlainWord(w)
    ensures Clean("_" + w + "_") == w
  {
    var s := "_" + w + "_";
    SubCopies(Bold, s);
    SubCopies(Italic, s);
    SubCopies(Code, s);
    SubCopies(Link, s);
    SubCopies(Emoji, s);
    assert DropMarkup(s) == w by {
      assert s == ['_'] + (w + "_");
      DropMarkupAppend(w, "_");
      DropMarkupKeeps(w);
    }
    NormaliseWord(w);
  }

  // ---------------------------------------------------------------------------
  // Cleaning twice can remove more than cleaning once

  /** The emphasis patterns copy the first two characters of `:x*y:`:
      neither is a star. */
  lemma KeepsHead(p: Pattern, x: char, y: char)
    requires Lower(x) && Lower(y) && Opener(p) == '*'
    ensures Sub(p, [':', x, '*', y, ':']) == [':', x] + Sub(p, ['*', y, ':'])
  {
    var s, u, t := [':', x, '*', y, ':'], [x, '*', y, ':'], ['*', y, ':'];
    assert s[1..] == u && u[1..] == t;
    SubStep(p, s);
    SubStep(p, u);
    Assoc([':'], [x], Sub(p, t));
    assert [':'] + [x] == [':', x];
  }

  lemma BoldKeepsStar(x: char, y: char)
    requires Lower(x) && Lower(y)
    ensures Sub(Bold, [':', x, '*', y, ':']) == [':', x, '*', y, ':']
  {
    var t := ['*', y, ':'];
    KeepsHead(Bold, x, y);
    SubStep(Bold, t);
    assert t[1..] == [y, ':'];
    SubCopies(Bold, [y, ':']);
  }

  lemma ItalicKeepsStar(x: char, y: char)
    requires Lower(x) && Lower(y)
    ensures Sub(Italic, [':', x, '*', y, ':']) == [':', x, '*', y, ':']
  {
    var t := ['*', y, ':'];
    KeepsHead(Italic, x, y);
    RunIs(t[1..], Not('*'), 2);
    SubStep(Italic, t);
    assert t[1..] == [y, ':'];
    SubCopies(Italic, [y, ':']);
  }

  lemma EmojiKeepsStar(x: char, y: char)
    requires Lower(x) && Lower(y)
    ensures Sub(Emoji, [':', x, '*', y, ':']) == [':', x, '*', y, ':']
  {
    var s, s1, s2, s3, s4 := [':', x, '*', y, ':'], [x, '*', y, ':'], ['*', y, ':'], [y, ':'], [':'];
    assert s[1..] == s1 && s1[1..] == s2 && s2[1..] == s3 && s3[1..] == s4 && s4[1..] == [];
    RunIs(s1, EmojiName, 1);
    SubStep(Emoji, s);
    SubStep(Emoji, s1);
    SubStep(Emoji, s2);
    SubStep(Emoji, s3);
    RunIs([], EmojiName, 0);
    SubStep(Emoji, s4);
    assert Sub(Emoji, s3) == s3;
    assert Sub(Emoji, s2) == s2;
    assert Sub(Emoji, s1) == s1;
  }

  /** No pattern matches `:x*y:`: the star has no partner and breaks the
      emoji name. */
  lemma SubstituteStar(x: char, y: char)
    requires Lower(x) && Lower(y)
    ensures Substitute([':', x, '*', y, ':']) == [':', x, '*', y, ':']
  {
    var s := [':', x, '*', y, ':'];
    BoldKeepsStar(x, y);
    ItalicKeepsStar(x, y);
    SubCopies(Code, s);
    SubCopies(Link, s);
    EmojiKeepsStar(x, y);
  }

  /** Once the star is gone, `:xy:` is an emoji name and is removed. */
  lemma SubstituteName(x: char, y: char)
    requires Lower(x) && Lower(y)
    ensures Substitute([':', x, y, ':']) == []
  {
    var t := [':', x, y, ':'];
    SubCopies(Bold, t);
    SubCopies(Italic, t);
    SubCopies(Code, t);
    SubCopies(Link, t);
    RunIs(t[1..], EmojiName, 2);
    assert MatchAt(Emoji, t) == Some(Match(4, []));
    assert t[4..] == [];
  }

  /** The symbol strip then removes the star. */
  lemma DropStar(x: char, y: char)
    requires Lower(x) && Lower(y)
    ensures DropMarkup([':', x, '*', y, ':']) == [':', x, y, ':']
  {
    var a, b := [':', x], [y, ':'];
    assert DropMarkup(a) == a by {
      assert a[1..] == [x] && [x][1..] == [];
    }
    assert DropMarkup(b) == b by {
      assert b[1..] == [':'] && [':'][1..] == [];
    }
    assert DropMarkup(['*']) == [] by {
      assert ['*'][1..] == [];
    }
    assert [':', x, '*', y, ':'] == a + (['*'] + b);
    DropMarkupAppend(a, ['*'] + b);
    DropMarkupAppend(['*'], b);
    assert a + b == [':', x, y, ':'];
  }

  lemma CleanStar(x: char, y: char)
    requires Lower(x) && Lower(y)
    ensures Clean([':', x, '*', y, ':']) == [':', x, y, ':']
  {
    SubstituteStar(x, y);
    DropStar(x, y);
    var w := [':', x, y, ':'];
    assert NoSpace(w) by {
      VisibleNotSpace(':');
      VisibleNotSpace(x);
      VisibleNotSpace(y);
    }
    NormaliseWord(w);
  }

  lemma CleanName(x: char, y: char)
    requires Lower(x) && Lower(y)
    ensures Clean([':', x, y, ':']) == []
  {
    SubstituteName(x, y);
    assert DropMarkup([]) == [];
    assert Normalise([]) == [];
  }

  /** `clean_text` is not idempotent: the symbol strip runs after the emoji
      pattern, so it can join an emoji name that a second pass removes. */
  lemma CleanNotIdempotent(x: char, y: char)
    requires Lower(x) && Lower(y)
    ensures Clean([':', x, '*', y, ':']) == [':', x, y, ':']
    ensures Clean(Clean([':', x, '*', y, ':'])) == []
  {
    CleanStar(x, y);
    CleanName(x, y);
  }

  // ---------------------------------------------------------------------------
  // Packing words under a budget of ten

  /** The last three words of `ChunkTen`: the short pair shares a chunk. */
  lemma PackTenTail(ws: seq<seq<char>>)
    requires |ws| == 5 && Words(ws)
    requires |ws[2]| == 4 && |ws[3]| == 2 && |ws[4]| == 6
    ensures Pack(ws[3..], ws[2], 10, 1) == [ws[2] + " " + ws[3], ws[4]]
  {
    var w2 := ws[2] + " " + ws[3];
    assert ws[3..][1..] == [ws[4]];
    assert Pack([ws[4]], w2, 10, 1) == [Strip(w2)] + Pack([], ws[4], 10, 1);
    WordIsPhrase(ws[2]);
    WordIsPhrase(ws[3]);
    SingleSpacedSep(ws[2], ws[3]);
    SingleSpacedEdges(w2);
    StripPhrase(w2);
    StripPhrase(ws[4]);
  }

  /** The first two words of `ChunkTen` each close a chunk. */
  lemma PackTenHead(ws: seq<seq<char>>)
    requires |ws| == 5 && Words(ws)
    requires |ws[0]| == 5 && |ws[1]| == 6 && |ws[2]| == 4
    ensures Pack(ws, "", 10, 1) == [ws[0], ws[1]] + Pack(ws[3..], ws[2], 10, 1)
  {
    var w0 := " " + ws[0];
    assert Pack(ws, "", 10, 1) == Pack(ws[1..], w0, 10, 1) by {
      assert "" + " " + ws[0] == w0;
    }
    assert Pack(ws[1..], w0, 10, 1) == [ws[0]] + Pack(ws[2..], ws[1], 10, 1) by {
      assert ws[1..][0] == ws[1] && ws[1..][1..] == ws[2..];
      StripPhrase(ws[0]);
    }
    assert Pack(ws[2..], ws[1], 10, 1) == [ws[1]] + Pack(ws[3..], ws[2], 10, 1) by {
      assert ws[2..][0] == ws[2] && ws[2..][1..] == ws[3..];
      StripPhrase(ws[1]);
    }
  }

  /** Words of lengths 5, 6, 4, 2 and 6 (as in "Hello world! This is
      great.") pack into four chunks at `max_chars` 10: the second word does
      not fit next to the first, and only the two short words share a
      chunk. */
  lemma ChunkTen(ws: seq<seq<char>>)
    requires |ws| == 5 && Words(ws)
    requires |ws[0]| == 5 && |ws[1]| == 6 && |ws[2]| == 4 && |ws[3]| == 2 && |ws[4]| == 6
    ensures Chunk(Join(ws), 10) == [ws[0], ws[1], ws[2] + " " + ws[3], ws[4]]
  {
    SplitJoin(ws);
    PackTenHead(ws);
    PackTenTail(ws);
  }

  // ---------------------------------------------------------------------------
  // Two languages alternate

  lemma ScheduleFour()
    ensures Schedule(4, "en", Some("fr")) == ["en", "fr", "en", "fr"]
    ensures Schedule(3, "en", None) == ["en", "en", "en"]
    ensures Schedule(2, "en", Some("")) == ["en", "en"]
  {
  }
}
