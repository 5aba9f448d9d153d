/** What `NaiveTokenizer.tokenize` guarantees, proved from the pass-by-pass model.

    Content: the tokens, concatenated, spell the lower-cased text with its
    whitespace removed; nothing else is added or dropped.

    Shape: every token is one of
      - a single character that is neither a word character nor whitespace,
      - the ellipsis `...`,
      - a word: word characters, where an apostrophe may appear only with a
        word character on each side (`isn't`, `o'brian`).

    The shape proof runs a small automaton over the intermediate strings. The
    output of pass 1 is accepted by it with ellipses switched off (every
    non-word character sits between spaces); pass 2 leaves the automaton's run
    unchanged; pass 3 turns an accepted run into an accepted run with ellipses
    switched on; and every piece that pass 4 cuts out of an accepted string is
    accepted on its own. */
module TokenizerProperties {
  import opened Base
  import opened Chars
  import opened Tokenizer

  // ---------------------------------------------------------------------------
  // Content
  // ---------------------------------------------------------------------------

  lemma {:induction false} PadKeepsNonSpace(s: string)
    ensures NonSpace(Pad(s)) == NonSpace(s)
  {
    if s != [] {
      var head := PadChar(s[0]);
      assert NonSpace(Pad(s)) == NonSpace(head) + NonSpace(Pad(s[1..])) by {
        assert Pad(s) == head + Pad(s[1..]);
        NonSpaceConcat(head, Pad(s[1..]));
      }
      assert NonSpace(head) == if IsSpace(s[0]) then [] else [s[0]] by {
        if !IsWordChar(s[0]) {
          NonSpaceCons(' ', [s[0], ' ']);
          NonSpaceCons(s[0], [' ']);
          NonSpaceCons(' ', []);
          assert head == [' '] + ([s[0]] + ([' '] + []));
        } else {
          NonSpaceCons(s[0], []);
          assert head == [s[0]] + [];
        }
      }
      PadKeepsNonSpace(s[1..]);
    }
  }

  /** A glued apostrophe match keeps its three non-space characters. */
  lemma NonSpaceOfApostrophe(s: string)
    requires ApostropheAt(s)
    ensures NonSpace(s) == [s[0], '\'', s[4]] + NonSpace(s[5..])
  {
    assert s == [s[0], s[1], s[2], s[3], s[4]] + s[5..];
    NonSpaceSpread(s[0], s[1], s[2], s[3], s[4], s[5..]);
  }

  /** `w ' w` with its two spaces, followed by `t`. */
  lemma NonSpaceSpread(a: char, b: char, c: char, d: char, e: char, t: string)
    requires !IsSpace(a) && IsSpace(b) && !IsSpace(c) && IsSpace(d) && !IsSpace(e)
    ensures NonSpace([a, b, c, d, e] + t) == [a, c, e] + NonSpace(t)
  {
    var t4 := [e] + t;
    var t3 := [d] + t4;
    var t2 := [c] + t3;
    var t1 := [b] + t2;
    var rest := NonSpace(t);
    assert NonSpace(t4) == [e] + rest by { NonSpaceCons(e, t); }
    assert NonSpace(t3) == [e] + rest by { NonSpaceCons(d, t4); }
    assert NonSpace(t2) == [c, e] + rest by { NonSpaceCons(c, t3); }
    assert NonSpace(t1) == [c, e] + rest by { NonSpaceCons(b, t2); }
    assert NonSpace([a] + t1) == [a, c, e] + rest by { NonSpaceCons(a, t1); }
    assert [a, b, c, d, e] + t == [a] + t1;
  }

  lemma NonSpaceCons(c: char, t: string)
    ensures NonSpace([c] + t) == (if IsSpace(c) then [] else [c]) + NonSpace(t)
  {
    assert ([c] + t)[1..] == t;
  }

  lemma NonSpaceOfThree(a: char, b: char, c: char, t: string)
    requires !IsSpace(a) && !IsSpace(b) && !IsSpace(c)
    ensures NonSpace([a, b, c] + t) == [a, b, c] + NonSpace(t)
  {
    NonSpaceCons(a, [b, c] + t);
    NonSpaceCons(b, [c] + t);
    NonSpaceCons(c, t);
    assert [a, b, c] + t == [a] + ([b] + ([c] + t));
  }

  lemma {:induction false} JoinApostrophesKeepsNonSpace(s: string)
    ensures NonSpace(JoinApostrophes(s)) == NonSpace(s)
    decreases |s|
  {
    if s != [] {
      if ApostropheAt(s) {
        assert NonSpace(JoinApostrophes(s)) == [s[0], '\'', s[4]] + NonSpace(JoinApostrophes(s[5..])) by {
          NonSpaceOfThree(s[0], '\'', s[4], JoinApostrophes(s[5..]));
        }
        JoinApostrophesKeepsNonSpace(s[5..]);
        NonSpaceOfApostrophe(s);
      } else {
        NonSpaceCons(s[0], JoinApostrophes(s[1..]));
        NonSpaceCons(s[0], s[1..]);
        assert s == [s[0]] + s[1..];
        JoinApostrophesKeepsNonSpace(s[1..]);
      }
    }
  }

  /** The span a match of `.\s+.\s+.` covers: three dots with whitespace runs between them. */
  lemma EllipsisSpan(s: string) returns (j1: nat, j2: nat)
    requires EllipsisEnd(s).Some?
    ensures 1 < j1 && j1 + 1 < j2 && EllipsisEnd(s).value == j2 + 1
    ensures s[..j2 + 1] == ['.'] + s[1..j1] + ['.'] + s[j1 + 1..j2] + ['.']
    ensures forall k :: 1 <= k < j1 ==> IsSpace(s[k])
    ensures forall k :: j1 + 1 <= k < j2 ==> IsSpace(s[k])
  {
    j1 := SpaceRunEnd(s, 1);
    j2 := SpaceRunEnd(s, j1 + 1);
  }

  lemma EllipsisSpanNonSpace(s: string)
    requires EllipsisEnd(s).Some?
    ensures NonSpace(s[..EllipsisEnd(s).value]) == "..."
  {
    var j1, j2 := EllipsisSpan(s);
    NonSpaceOfEllipsis(s[1..j1], s[j1 + 1..j2]);
  }

  lemma {:induction false} JoinEllipsesKeepsNonSpace(s: string)
    ensures NonSpace(JoinEllipses(s)) == NonSpace(s)
    decreases |s|
  {
    if s != [] {
      match EllipsisEnd(s)
      case Some(e) =>
        var rest := s[e..];
        JoinEllipsesKeepsNonSpace(rest);
        assert s == s[..e] + rest;
        NonSpaceConcat(s[..e], rest);
        EllipsisSpanNonSpace(s);
        NonSpaceConcat("...", JoinEllipses(rest));
        NonSpaceOfNonSpaces("...");
      case None =>
        JoinEllipsesKeepsNonSpace(s[1..]);
        assert s == [s[0]] + s[1..];
        NonSpaceConcat([s[0]], s[1..]);
        NonSpaceConcat([s[0]], JoinEllipses(s[1..]));
    }
  }

  lemma {:induction false} SplitSpellsNonSpace(s: string)
    ensures Flatten(Split(s)) == NonSpace(s)
    decreases |s|
  {
    if s != [] {
      if IsSpace(s[0]) {
        SplitSpellsNonSpace(s[1..]);
      } else {
        var j := WordEnd(s, 0);
        SplitSpellsNonSpace(s[j..]);
        assert s == s[..j] + s[j..];
        NonSpaceConcat(s[..j], s[j..]);
        NonSpaceOfNonSpaces(s[..j]);
        var r := [s[..j]] + Split(s[j..]);
        assert r[1..] == Split(s[j..]);
      }
    }
  }

  /** The tokens, concatenated, are exactly the lower-cased non-whitespace characters of the text. */
  lemma TokensSpellText(text: string)
    ensures Flatten(Tokenize(text)) == Lower(NonSpace(text))
  {
    var lowered := Lower(text);
    var padded := Pad(lowered);
    var glued := JoinApostrophes(padded);
    var joined := JoinEllipses(glued);
    SplitSpellsNonSpace(joined);
    JoinEllipsesKeepsNonSpace(glued);
    JoinApostrophesKeepsNonSpace(padded);
    PadKeepsNonSpace(lowered);
    NonSpaceLower(text);
  }

  lemma {:induction false} InFlatten(ss: seq<string>, k: nat, i: nat)
    requires k < |ss| && i < |ss[k]|
    ensures ss[k][i] in Flatten(ss)
  {
    if k == 0 {
      assert Flatten(ss) == ss[0] + Flatten(ss[1..]);
      assert Flatten(ss)[i] == ss[0][i];
    } else {
      InFlatten(ss[1..], k - 1, i);
    }
  }

  /** No token holds an upper-case letter or whitespace, and no token is empty. */
  lemma TokensAreLowerCase(text: string)
    ensures forall k :: 0 <= k < |Tokenize(text)| ==> |Tokenize(text)[k]| > 0
    ensures forall k, i :: 0 <= k < |Tokenize(text)| && 0 <= i < |Tokenize(text)[k]| ==>
              !IsUpper(Tokenize(text)[k][i]) && !IsSpace(Tokenize(text)[k][i])
  {
    var ts := Tokenize(text);
    TokensSpellText(text);
    forall k, i | 0 <= k < |ts| && 0 <= i < |ts[k]| ensures !IsUpper(ts[k][i]) {
      InFlatten(ts, k, i);
      var low := Lower(NonSpace(text));
      var p :| 0 <= p < |low| && low[p] == ts[k][i];
    }
  }

  /** Empty or all-whitespace text has no tokens. */
  lemma BlankTextHasNoTokens(text: string)
    requires forall i :: 0 <= i < |text| ==> IsSpace(text[i])
    ensures Tokenize(text) == []
  {
    var ts := Tokenize(text);
    TokensSpellText(text);
    NonSpaceOfSpaces(text);
  }

  // ---------------------------------------------------------------------------
  // Shape
  // ---------------------------------------------------------------------------

  /** Not a word character and not whitespace: what pass 1 isolates. */
  predicate IsSymbol(c: char)
  {
    !IsWordChar(c) && !IsSpace(c)
  }

  /** What may follow the first character of a word: word characters, and
      apostrophes each followed by a word character. */
  ghost predicate WordTail(v: string)
    decreases |v|
  {
    || v == []
    || (IsWordChar(v[0]) && WordTail(v[1..]))
    || (|v| >= 2 && v[0] == '\'' && IsWordChar(v[1]) && WordTail(v[2..]))
  }

  ghost predicate IsWord(w: string)
  {
    |w| > 0 && IsWordChar(w[0]) && WordTail(w[1..])
  }

  ghost predicate WellFormedToken(w: string)
  {
    || (|w| == 1 && IsSymbol(w[0]))
    || w == "..."
    || IsWord(w)
  }

  datatype State = Start | InWord | AfterApostrophe | NeedSpace | Dot1 | Dot2 | Reject

  /** One step of the automaton. With `ellipses` off every symbol must stand
      between spaces; with it on, `...` may too. */
  function Step(q: State, c: char, ellipses: bool): State
  {
    match q
    case Start =>
      if IsSpace(c) then Start
      else if IsWordChar(c) then InWord
      else if c == '.' then Dot1
      else NeedSpace
    case InWord =>
      if IsSpace(c) then Start
      else if IsWordChar(c) then InWord
      else if c == '\'' then AfterApostrophe
      else Reject
    case AfterApostrophe => if IsWordChar(c) then InWord else Reject
    case NeedSpace => if IsSpace(c) then Start else Reject
    case Dot1 =>
      if IsSpace(c) then Start
      else if ellipses && c == '.' then Dot2
      else Reject
    case Dot2 => if ellipses && c == '.' then NeedSpace else Reject
    case Reject => Reject
  }

  predicate Final(q: State)
  {
    q == Start || q == InWord || q == NeedSpace || q == Dot1
  }

  function Run(s: string, q: State, ellipses: bool): State
  {
    if s == [] then q else Run(s[1..], Step(q, s[0], ellipses), ellipses)
  }

  lemma {:induction false} RunConcat(a: string, b: string, q: State, ellipses: bool)
    ensures Run(a + b, q, ellipses) == Run(b, Run(a, q, ellipses), ellipses)
  {
    if a != [] {
      assert (a + b)[1..] == a[1..] + b;
      RunConcat(a[1..], b, Step(q, a[0], ellipses), ellipses);
    } else {
      assert a + b == b;
    }
  }

  lemma RunCons(c: char, t: string, q: State, ellipses: bool)
    ensures Run([c] + t, q, ellipses) == Run(t, Step(q, c, ellipses), ellipses)
  {
    assert ([c] + t)[1..] == t;
  }

  lemma {:induction false} RunReject(s: string, ellipses: bool)
    ensures Run(s, Reject, ellipses) == Reject
  {
    if s != [] {
      RunReject(s[1..], ellipses);
    }
  }

  lemma {:induction false} RunSpaces(s: string, q: State, ellipses: bool)
    requires |s| > 0 && Final(q)
    requires forall i :: 0 <= i < |s| ==> IsSpace(s[i])
    ensures Run(s, q, ellipses) == Start
  {
    if |s| > 1 {
      RunSpaces(s[1..], Start, ellipses);
    }
  }

  /** Pass 1 produces strings the automaton accepts with ellipses off. */
  lemma {:induction false} PadRun(s: string, q: State)
    requires q == Start || q == InWord
    ensures Run(Pad(s), q, false) == Start || Run(Pad(s), q, false) == InWord
  {
    if s != [] {
      RunConcat(PadChar(s[0]), Pad(s[1..]), q, false);
      var c := s[0];
      var q' := Run(PadChar(c), q, false);
      if !IsWordChar(c) {
        assert PadChar(c) == [' '] + ([c] + [' ']);
        RunConcat([' '], [c] + [' '], q, false);
        RunConcat([c], [' '], Start, false);
      }
      assert q' == Start || q' == InWord;
      PadRun(s[1..], q');
    }
  }

  lemma GlueRun(a: char, b: char, q: State, ellipses: bool)
    requires IsWordChar(a) && IsWordChar(b)
    ensures Run([a, ' ', '\'', ' ', b], q, ellipses) == Run([a, '\'', b], q, ellipses)
  {
    var q1 := Step(q, a, ellipses);
    RunCons(a, [' ', '\'', ' ', b], q, ellipses);
    RunCons(a, ['\'', b], q, ellipses);
    assert [a, ' ', '\'', ' ', b] == [a] + [' ', '\'', ' ', b];
    assert [a, '\'', b] == [a] + ['\'', b];
    if q1 == Reject {
      RunReject([' ', '\'', ' ', b], ellipses);
      RunReject(['\'', b], ellipses);
    } else {
      assert q1 == InWord;
      RunCons(' ', ['\'', ' ', b], InWord, ellipses);
      assert [' ', '\'', ' ', b] == [' '] + ['\'', ' ', b];
      RunCons('\'', [' ', b], Start, ellipses);
      assert ['\'', ' ', b] == ['\''] + [' ', b];
      RunCons(' ', [b], NeedSpace, ellipses);
      assert [' ', b] == [' '] + [b];
      RunCons('\'', [b], InWord, ellipses);
      assert ['\'', b] == ['\''] + [b];
    }
  }

  /** Pass 2 never changes where the automaton ends up. */
  lemma {:induction false} JoinApostrophesRun(s: string, q: State, ellipses: bool)
    ensures Run(JoinApostrophes(s), q, ellipses) == Run(s, q, ellipses)
    decreases |s|
  {
    if s != [] {
      if ApostropheAt(s) {
        var rest := s[5..];
        var glued := [s[0], '\'', s[4]];
        assert s == s[..5] + rest;
        assert s[..5] == [s[0], ' ', '\'', ' ', s[4]];
        RunConcat(s[..5], rest, q, ellipses);
        RunConcat(glued, JoinApostrophes(rest), q, ellipses);
        GlueRun(s[0], s[4], q, ellipses);
        JoinApostrophesRun(rest, Run(s[..5], q, ellipses), ellipses);
      } else {
        JoinApostrophesRun(s[1..], Step(q, s[0], ellipses), ellipses);
      }
    }
  }

  /** How a run with ellipses off is tracked by one with ellipses on. */
  predicate Tracks(p: State, q: State)
  {
    p == q || (p == Dot1 && q == NeedSpace)
  }

  /** Where the automaton (ellipses off) ends up after a match of `.\s+.\s+.`. */
  lemma EllipsisSpanRun(a: string, b: string, p: State)
    requires forall i :: 0 <= i < |a| ==> IsSpace(a[i])
    requires forall i :: 0 <= i < |b| ==> IsSpace(b[i])
    requires |a| > 0 && |b| > 0
    ensures Run(['.'] + a + ['.'] + b + ['.'], p, false) == if p == Start then Dot1 else Reject
  {
    var span := ['.'] + a + ['.'] + b + ['.'];
    assert span == ['.'] + (a + (['.'] + (b + ['.'])));
    RunCons('.', a + (['.'] + (b + ['.'])), p, false);
    var p1 := Step(p, '.', false);
    if p1 == Reject {
      RunReject(a + (['.'] + (b + ['.'])), false);
    } else {
      assert p == Start && p1 == Dot1;
      RunConcat(a, ['.'] + (b + ['.']), Dot1, false);
      RunSpaces(a, Dot1, false);
      RunCons('.', b + ['.'], Start, false);
      RunConcat(b, ['.'], Dot1, false);
      RunSpaces(b, Dot1, false);
      RunCons('.', [], Start, false);
    }
  }

  lemma EllipsisRun(q: State)
    ensures Run("...", q, true) == if q == Start then NeedSpace else Reject
  {
    assert "..." == ['.'] + (['.'] + ['.']);
    RunCons('.', ['.'] + ['.'], q, true);
    RunCons('.', ['.'], Step(q, '.', true), true);
    RunCons('.', [], Step(Step(q, '.', true), '.', true), true);
  }

  /** Pass 3 maps accepted strings (ellipses off) to accepted strings (ellipses on). */
  lemma {:induction false} JoinEllipsesRun(s: string, p: State, q: State)
    requires Tracks(p, q)
    requires Run(s, p, false) != Reject
    ensures Tracks(Run(s, p, false), Run(JoinEllipses(s), q, true))
    decreases |s|
  {
    if s != [] {
      match EllipsisEnd(s)
      case Some(e) =>
        var j1, j2 := EllipsisSpan(s);
        var rest := s[e..];
        assert s == s[..e] + rest;
        RunConcat(s[..e], rest, p, false);
        EllipsisSpanRun(s[1..j1], s[j1 + 1..j2], p);
        if p != Start {
          RunReject(rest, false);
          assert false;
        }
        RunConcat("...", JoinEllipses(rest), q, true);
        EllipsisRun(q);
        JoinEllipsesRun(rest, Dot1, NeedSpace);
      case None =>
        var p1 := Step(p, s[0], false);
        if p1 == Reject {
          RunReject(s[1..], false);
          assert false;
        }
        assert JoinEllipses(s) == [s[0]] + JoinEllipses(s[1..]);
        RunCons(s[0], JoinEllipses(s[1..]), q, true);
        JoinEllipsesRun(s[1..], p1, Step(q, s[0], true));
    }
  }

  /** Every piece `str.split()` cuts out of an accepted string is accepted on its own. */
  lemma {:induction false} SplitRun(u: string)
    requires Final(Run(u, Start, true))
    ensures forall k :: 0 <= k < |Split(u)| ==> Final(Run(Split(u)[k], Start, true))
    decreases |u|
  {
    if u != [] {
      if IsSpace(u[0]) {
        SplitRun(u[1..]);
      } else {
        var j := WordEnd(u, 0);
        var t := u[..j];
        var rest := u[j..];
        assert u == t + rest;
        RunConcat(t, rest, Start, true);
        var q := Run(t, Start, true);
        if rest != [] {
          assert IsSpace(rest[0]);
          assert rest == [rest[0]] + rest[1..];
          RunCons(rest[0], rest[1..], q, true);
          RunCons(rest[0], rest[1..], Start, true);
          if !Final(q) {
            RunReject(rest[1..], true);
            assert false;
          }
          SplitRun(rest);
        }
        var r := [t] + Split(rest);
        assert r[1..] == Split(rest);
      }
    }
  }

  lemma {:induction false} WordTailRun(v: string)
    requires forall i :: 0 <= i < |v| ==> !IsSpace(v[i])
    requires Final(Run(v, InWord, true))
    ensures WordTail(v)
    decreases |v|
  {
    if v != [] {
      if IsWordChar(v[0]) {
        WordTailRun(v[1..]);
      } else if v[0] == '\'' {
        assert v == [v[0]] + v[1..];
        RunCons(v[0], v[1..], InWord, true);
        if |v| == 1 {
          assert false;
        }
        var u := v[1..];
        assert u == [u[0]] + u[1..];
        RunCons(u[0], u[1..], AfterApostrophe, true);
        if !IsWordChar(v[1]) {
          RunReject(u[1..], true);
          assert false;
        }
        assert u[1..] == v[2..];
        WordTailRun(v[2..]);
      } else {
        assert v == [v[0]] + v[1..];
        RunCons(v[0], v[1..], InWord, true);
        RunReject(v[1..], true);
        assert false;
      }
    }
  }

  lemma TokenShape(w: string)
    requires |w| > 0
    requires forall i :: 0 <= i < |w| ==> !IsSpace(w[i])
    requires Final(Run(w, Start, true))
    ensures WellFormedToken(w)
  {
    assert w == [w[0]] + w[1..];
    RunCons(w[0], w[1..], Start, true);
    if IsWordChar(w[0]) {
      WordTailRun(w[1..]);
    } else if |w| > 1 {
      var v := w[1..];
      assert v == [v[0]] + v[1..];
      var q1 := Step(Start, w[0], true);
      RunCons(v[0], v[1..], q1, true);
      var q2 := Step(q1, v[0], true);
      if q2 == Reject {
        RunReject(v[1..], true);
        assert false;
      }
      assert w[0] == '.' && v[0] == '.' && q2 == Dot2;
      if |v| == 1 {
        assert false;
      }
      var u := v[1..];
      assert u == [u[0]] + u[1..];
      RunCons(u[0], u[1..], Dot2, true);
      var q3 := Step(Dot2, u[0], true);
      if q3 == Reject {
        RunReject(u[1..], true);
        assert false;
      }
      assert u[0] == '.' && q3 == NeedSpace;
      if |u| > 1 {
        var t := u[1..];
        assert t == [t[0]] + t[1..];
        RunCons(t[0], t[1..], NeedSpace, true);
        RunReject(t[1..], true);
        assert false;
      }
      assert w == "...";
    }
  }

  /** Every token is a lone symbol, `...`, or a word whose apostrophes sit between word characters. */
  lemma TokensWellFormed(text: string)
    ensures forall k :: 0 <= k < |Tokenize(text)| ==> WellFormedToken(Tokenize(text)[k])
  {
    var lowered := Lower(text);
    var padded := Pad(lowered);
    var glued := JoinApostrophes(padded);
    var joined := JoinEllipses(glued);
    PadRun(lowered, Start);
    JoinApostrophesRun(padded, Start, false);
    JoinEllipsesRun(glued, Start, Start);
    SplitRun(joined);
    var ts := Split(joined);
    forall k | 0 <= k < |ts| ensures WellFormedToken(ts[k]) {
      TokenShape(ts[k]);
    }
  }
}
