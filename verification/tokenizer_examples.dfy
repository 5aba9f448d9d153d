/** `NaiveTokenizer.tokenize` on the shapes of input its unit tests exercise,
    stated for every choice of the surrounding words: two words separated by
    a space, a symbol between two words (`now,` / `pre-school` / `22.5` /
    `10%`), an apostrophe between two words (`isn't`) and a trailing ellipsis
    (`More...`). */
module TokenizerExamples {
  import opened Base
  import opened Chars
  import opened Tokenizer

  /** A non-empty run of word characters. */
  predicate IsWordRun(w: string)
  {
    |w| > 0 && forall i :: 0 <= i < |w| ==> IsWordChar(w[i])
  }

  // ---------------------------------------------------------------------------
  // How each pass treats concatenations
  // ---------------------------------------------------------------------------

  lemma {:induction false} PadConcat(x: string, y: string)
    ensures Pad(x + y) == Pad(x) + Pad(y)
  {
    if x != [] {
      assert (x + y)[1..] == x[1..] + y;
      PadConcat(x[1..], y);
    } else {
      assert x + y == y;
    }
  }

  lemma {:induction false} PadWordRun(w: string)
    requires forall i :: 0 <= i < |w| ==> IsWordChar(w[i])
    ensures Pad(w) == w
  {
    if w != [] {
      PadWordRun(w[1..]);
      assert w == [w[0]] + w[1..];
    }
  }

  lemma PadSymbol(c: char)
    requires !IsWordChar(c)
    ensures Pad([c]) == [' ', c, ' ']
  {
    assert [c][1..] == [];
  }

  lemma {:induction false} JoinApostrophesNoApostrophe(s: string)
    requires forall i :: 0 <= i < |s| ==> s[i] != '\''
    ensures JoinApostrophes(s) == s
  {
    if s != [] {
      JoinApostrophesNoApostrophe(s[1..]);
      assert s == [s[0]] + s[1..];
    }
  }

  /** Pass 2 copies a word run up to its last character. */
  lemma {:induction false} JoinApostrophesWordPrefix(w: string, t: string)
    requires IsWordRun(w)
    ensures JoinApostrophes(w + t) == w[..|w| - 1] + JoinApostrophes([w[|w| - 1]] + t)
  {
    if |w| > 1 {
      var s := w + t;
      assert JoinApostrophes(s) == [w[0]] + JoinApostrophes(w[1..] + t) by {
        assert s[1] == w[1];
        assert !ApostropheAt(s);
        assert s[1..] == w[1..] + t;
      }
      assert JoinApostrophes(w[1..] + t) == w[1..|w| - 1] + JoinApostrophes([w[|w| - 1]] + t) by {
        assert IsWordRun(w[1..]);
        JoinApostrophesWordPrefix(w[1..], t);
        assert w[1..][|w[1..]| - 1] == w[|w| - 1];
        assert w[1..][..|w[1..]| - 1] == w[1..|w| - 1];
      }
      assert w[..|w| - 1] == [w[0]] + w[1..|w| - 1];
    } else {
      assert w == [w[|w| - 1]];
    }
  }

  /** Pass 3 leaves a string with at most one `.` unchanged. */
  lemma {:induction false} JoinEllipsesFewDots(s: string)
    requires forall i, j :: 0 <= i < j < |s| && s[i] == '.' ==> s[j] != '.'
    ensures JoinEllipses(s) == s
  {
    if s != [] {
      if EllipsisEnd(s).Some? {
        assert false;
      }
      JoinEllipsesFewDots(s[1..]);
      assert s == [s[0]] + s[1..];
    }
  }

  /** Pass 3 copies a prefix that holds no `.`. */
  lemma {:induction false} JoinEllipsesNoDotPrefix(p: string, t: string)
    requires forall i :: 0 <= i < |p| ==> p[i] != '.'
    ensures JoinEllipses(p + t) == p + JoinEllipses(t)
  {
    if p != [] {
      assert JoinEllipses(p + t) == [p[0]] + JoinEllipses(p[1..] + t) by {
        assert (p + t)[0] == p[0];
        assert EllipsisEnd(p + t) == None;
        assert (p + t)[1..] == p[1..] + t;
      }
      JoinEllipsesNoDotPrefix(p[1..], t);
      assert [p[0]] + (p[1..] + JoinEllipses(t)) == p + JoinEllipses(t) by {
        assert p == [p[0]] + p[1..];
      }
    } else {
      assert p + t == t;
    }
  }

  lemma {:induction false} SplitNonSpaceRun(w: string, t: string)
    requires |w| > 0 && forall i :: 0 <= i < |w| ==> !IsSpace(w[i])
    requires t == [] || IsSpace(t[0])
    ensures Split(w + t) == [w] + Split(t)
  {
    var s := w + t;
    var j := WordEnd(s, 0);
    if t != [] {
      assert s[|w|] == t[0];
    }
    if j < |w| {
      assert false;
    }
    if j > |w| {
      assert false;
    }
    assert s[..j] == w && s[j..] == t;
  }

  lemma {:induction false} SplitLeadingSpaces(sp: string, t: string)
    requires forall i :: 0 <= i < |sp| ==> IsSpace(sp[i])
    ensures Split(sp + t) == Split(t)
    decreases |sp|
  {
    if sp != [] {
      assert Split(sp + t) == Split(sp[1..] + t) by {
        assert (sp + t)[0] == sp[0];
        assert (sp + t)[1..] == sp[1..] + t;
      }
      SplitLeadingSpaces(sp[1..], t);
    } else {
      assert sp + t == t;
    }
  }

  // ---------------------------------------------------------------------------
  // The shapes
  // ---------------------------------------------------------------------------

  lemma PaddedAround(a: string, c: char, b: string)
    requires IsWordRun(a) && IsWordRun(b) && !IsWordChar(c)
    ensures Pad(Lower(a + [c] + b)) == Lower(a) + [' ', ToLower(c), ' '] + Lower(b)
  {
    var la, lb, lc := Lower(a), Lower(b), ToLower(c);
    LowerConcat(a + [c], b);
    LowerConcat(a, [c]);
    assert Lower([c]) == [lc];
    PadConcat(la + [lc], lb);
    PadConcat(la, [lc]);
    PadWordRun(la);
    PadWordRun(lb);
    PadSymbol(lc);
  }

  /** Passes 2 and 3 leave `a c b` alone when `c` is not an apostrophe. */
  lemma PassesKeepAround(la: string, c: char, lb: string)
    requires IsWordRun(la) && IsWordRun(lb) && !IsWordChar(c) && c != '\''
    ensures JoinEllipses(JoinApostrophes(la + [' ', c, ' '] + lb)) == la + [' ', c, ' '] + lb
  {
    var padded := la + [' ', c, ' '] + lb;
    forall i | 0 <= i < |padded| ensures padded[i] != '\'' && (padded[i] == '.' ==> i == |la| + 1) {
      if i < |la| {
        assert padded[i] == la[i];
      } else if i >= |la| + 3 {
        assert padded[i] == lb[i - |la| - 3];
      }
    }
    JoinApostrophesNoApostrophe(padded);
    JoinEllipsesFewDots(padded);
  }

  lemma SplitAround(la: string, c: char, lb: string)
    requires IsWordRun(la) && IsWordRun(lb) && !IsSpace(c)
    ensures Split(la + [' ', c, ' '] + lb) == [la, [c], lb]
  {
    assert la + [' ', c, ' '] + lb == la + ([' '] + ([c] + ([' '] + lb)));
    SplitNonSpaceRun(la, [' '] + ([c] + ([' '] + lb)));
    SplitLeadingSpaces([' '], [c] + ([' '] + lb));
    SplitNonSpaceRun([c], [' '] + lb);
    SplitLeadingSpaces([' '], lb);
    SplitNonSpaceRun(lb, []);
    assert lb + [] == lb;
  }

  lemma SplitAroundSpace(la: string, lb: string)
    requires IsWordRun(la) && IsWordRun(lb)
    ensures Split(la + [' ', ' ', ' '] + lb) == [la, lb]
  {
    assert la + [' ', ' ', ' '] + lb == la + ([' ', ' ', ' '] + lb);
    SplitNonSpaceRun(la, [' ', ' ', ' '] + lb);
    SplitLeadingSpaces([' ', ' ', ' '], lb);
    SplitNonSpaceRun(lb, []);
    assert lb + [] == lb;
  }

  /** `'word1 word2'` gives `['word1', 'word2']`: a run of word characters is never split. */
  lemma TwoWords(a: string, b: string)
    requires IsWordRun(a) && IsWordRun(b)
    ensures Tokenize(a + " " + b) == [Lower(a), Lower(b)]
  {
    assert a + " " + b == a + [' '] + b;
    PaddedAround(a, ' ', b);
    PassesKeepAround(Lower(a), ' ', Lower(b));
    SplitAroundSpace(Lower(a), Lower(b));
  }

  /** A non-word, non-space character other than the apostrophe between two
      words is a token of its own: `now,` / `pre-school` / `22.5` / `10%`. */
  lemma SymbolBetweenWords(a: string, c: char, b: string)
    requires IsWordRun(a) && IsWordRun(b)
    requires !IsWordChar(c) && !IsSpace(c) && c != '\''
    ensures Tokenize(a + [c] + b) == [Lower(a), [ToLower(c)], Lower(b)]
  {
    PaddedAround(a, c, b);
    PassesKeepAround(Lower(a), ToLower(c), Lower(b));
    SplitAround(Lower(a), ToLower(c), Lower(b));
  }

  /** One step of pass 2: `y ' z` between word characters becomes `y'z`. */
  lemma JoinApostrophesGlue(y: char, z: char, u: string)
    requires IsWordChar(y) && IsWordChar(z)
    ensures JoinApostrophes([y, ' ', '\'', ' ', z] + u) == [y, '\'', z] + JoinApostrophes(u)
  {
    var s := [y, ' ', '\'', ' ', z] + u;
    assert ApostropheAt(s);
    assert s[5..] == u;
  }

  /** Pass 2 glues `la ' lb` into one run. */
  lemma GlueAround(la: string, lb: string)
    requires IsWordRun(la) && IsWordRun(lb)
    ensures JoinApostrophes(la + [' ', '\'', ' '] + lb) == la + ['\''] + lb
  {
    var x := la[|la| - 1];
    var t := [' ', '\'', ' '] + lb;
    assert la + [' ', '\'', ' '] + lb == la + t;
    assert JoinApostrophes(la + t) == la[..|la| - 1] + JoinApostrophes([x] + t) by {
      JoinApostrophesWordPrefix(la, t);
    }
    assert JoinApostrophes([x] + t) == [x, '\'', lb[0]] + lb[1..] by {
      assert [x] + t == [x, ' ', '\'', ' ', lb[0]] + lb[1..];
      JoinApostrophesGlue(x, lb[0], lb[1..]);
      JoinApostrophesNoApostrophe(lb[1..]);
    }
    assert la[..|la| - 1] + ([x, '\'', lb[0]] + lb[1..]) == la + ['\''] + lb by {
      assert la == la[..|la| - 1] + [x];
      assert lb == [lb[0]] + lb[1..];
    }
  }

  lemma NoDotsAround(la: string, c: char, lb: string)
    requires IsWordRun(la) && IsWordRun(lb) && c != '.'
    ensures JoinEllipses(la + [c] + lb) == la + [c] + lb
  {
    var s := la + [c] + lb;
    forall i | 0 <= i < |s| ensures s[i] != '.' {
      if i < |la| {
        assert s[i] == la[i];
      } else if i > |la| {
        assert s[i] == lb[i - |la| - 1];
      }
    }
    JoinEllipsesFewDots(s);
  }

  /** An apostrophe with a word character on each side stays inside one token: `isn't`. */
  lemma ApostropheBetweenWords(a: string, b: string)
    requires IsWordRun(a) && IsWordRun(b)
    ensures Tokenize(a + "'" + b) == [Lower(a) + "'" + Lower(b)]
  {
    var la, lb := Lower(a), Lower(b);
    var glued := la + ['\''] + lb;
    assert Pad(Lower(a + "'" + b)) == la + [' ', '\'', ' '] + lb by {
      assert a + "'" + b == a + ['\''] + b;
      PaddedAround(a, '\'', b);
    }
    assert JoinApostrophes(la + [' ', '\'', ' '] + lb) == glued by {
      GlueAround(la, lb);
    }
    assert JoinEllipses(glued) == glued by {
      NoDotsAround(la, '\'', lb);
    }
    assert Split(glued) == [glued] by {
      forall i | 0 <= i < |glued| ensures !IsSpace(glued[i]) {
        if i < |la| {
          assert glued[i] == la[i];
        } else if i > |la| {
          assert glued[i] == lb[i - |la| - 1];
        }
      }
      SplitNonSpaceRun(glued, []);
      assert glued + [] == glued;
    }
  }

  /** Pass 2 copies a prefix of non-word characters. */
  lemma {:induction false} JoinApostrophesNonWordPrefix(p: string, t: string)
    requires forall i :: 0 <= i < |p| ==> !IsWordChar(p[i])
    ensures JoinApostrophes(p + t) == p + JoinApostrophes(t)
  {
    if p != [] {
      assert JoinApostrophes(p + t) == [p[0]] + JoinApostrophes(p[1..] + t) by {
        assert (p + t)[0] == p[0];
        assert !ApostropheAt(p + t);
        assert (p + t)[1..] == p[1..] + t;
      }
      JoinApostrophesNonWordPrefix(p[1..], t);
      assert [p[0]] + (p[1..] + JoinApostrophes(t)) == p + JoinApostrophes(t) by {
        assert p == [p[0]] + p[1..];
      }
    } else {
      assert p + t == t;
    }
  }

  lemma PaddedChain(a: string, x: char, b: string)
    requires IsWordRun(a) && IsWordChar(x) && IsWordRun(b)
    ensures Pad(Lower(a + "'" + [x] + "'" + b)) ==
              Lower(a) + [' ', '\'', ' ', ToLower(x), ' ', '\'', ' '] + Lower(b)
  {
    var la, lx, lb := Lower(a), ToLower(x), Lower(b);
    var front := a + ['\''] + [x];
    var padFront := la + [' ', '\'', ' '] + [lx];
    var padBack := [' ', '\'', ' '] + lb;
    assert Pad(Lower(front)) == padFront by {
      PaddedAround(a, '\'', [x]);
      assert Lower([x]) == [lx];
    }
    assert Pad(Lower(['\''] + b)) == padBack by {
      LowerConcat(['\''], b);
      assert Lower(['\'']) == ['\''];
      PadConcat(['\''], lb);
      PadSymbol('\'');
      PadWordRun(lb);
    }
    assert Pad(Lower(a + "'" + [x] + "'" + b)) == padFront + padBack by {
      assert a + "'" + [x] + "'" + b == front + (['\''] + b);
      LowerConcat(front, ['\''] + b);
      PadConcat(Lower(front), Lower(['\''] + b));
    }
    assert padFront + padBack == la + [' ', '\'', ' ', lx, ' ', '\'', ' '] + lb;
  }

  /** Pass 2 leaves a spaced apostrophe before a word run alone. */
  lemma KeepSpacedApostrophe(lb: string)
    requires IsWordRun(lb)
    ensures JoinApostrophes([' ', '\'', ' '] + lb) == [' ', '\'', ' '] + lb
  {
    JoinApostrophesNonWordPrefix([' ', '\'', ' '], lb);
    JoinApostrophesNoApostrophe(lb);
  }

  /** The two ways of cutting the chain `y ' x ' lb` used below. */
  lemma ChainShapes(y: char, lx: char, lb: string)
    ensures [y] + ([' ', '\'', ' ', lx, ' ', '\'', ' '] + lb) == [y, ' ', '\'', ' ', lx] + ([' ', '\'', ' '] + lb)
    ensures [y, '\'', lx] + ([' ', '\'', ' '] + lb) == [y] + (['\'', lx, ' ', '\'', ' '] + lb)
  {
  }

  /** Pass 2 on `y ' x ' lb`: only the first apostrophe is glued. */
  lemma GlueChainTail(y: char, lx: char, lb: string)
    requires IsWordChar(y) && IsWordChar(lx) && IsWordRun(lb)
    ensures JoinApostrophes([y] + ([' ', '\'', ' ', lx, ' ', '\'', ' '] + lb)) ==
              [y] + (['\'', lx, ' ', '\'', ' '] + lb)
  {
    ChainShapes(y, lx, lb);
    JoinApostrophesGlue(y, lx, [' ', '\'', ' '] + lb);
    KeepSpacedApostrophe(lb);
  }

  lemma GlueFirstOfChain(la: string, lx: char, lb: string)
    requires IsWordRun(la) && IsWordChar(lx) && IsWordRun(lb)
    ensures JoinApostrophes(la + [' ', '\'', ' ', lx, ' ', '\'', ' '] + lb) ==
              la + ['\'', lx, ' ', '\'', ' '] + lb
  {
    var y := la[|la| - 1];
    var t := [' ', '\'', ' ', lx, ' ', '\'', ' '] + lb;
    assert la + [' ', '\'', ' ', lx, ' ', '\'', ' '] + lb == la + t;
    assert JoinApostrophes(la + t) == la[..|la| - 1] + JoinApostrophes([y] + t) by {
      JoinApostrophesWordPrefix(la, t);
    }
    assert JoinApostrophes([y] + t) == [y] + (['\'', lx, ' ', '\'', ' '] + lb) by {
      GlueChainTail(y, lx, lb);
    }
    assert la[..|la| - 1] + ([y] + (['\'', lx, ' ', '\'', ' '] + lb)) == la + ['\'', lx, ' ', '\'', ' '] + lb by {
      assert la == la[..|la| - 1] + [y];
    }
  }

  lemma NoEllipsisInChain(la: string, lx: char, lb: string)
    requires IsWordRun(la) && IsWordChar(lx) && IsWordRun(lb)
    ensures JoinEllipses(la + ['\'', lx, ' ', '\'', ' '] + lb) == la + ['\'', lx, ' ', '\'', ' '] + lb
  {
    var s := la + ['\'', lx, ' ', '\'', ' '] + lb;
    forall i | 0 <= i < |s| ensures s[i] != '.' {
      if i < |la| {
        assert s[i] == la[i];
      } else if i >= |la| + 5 {
        assert s[i] == lb[i - |la| - 5];
      }
    }
    JoinEllipsesFewDots(s);
  }

  lemma SplitChain(la: string, lx: char, lb: string)
    requires IsWordRun(la) && IsWordChar(lx) && IsWordRun(lb)
    ensures Split(la + ['\'', lx, ' ', '\'', ' '] + lb) == [la + ['\'', lx], ['\''], lb]
  {
    var w := la + ['\'', lx];
    var rest := [' ', '\'', ' '] + lb;
    assert forall i :: 0 <= i < |w| ==> !IsSpace(w[i]) by {
      forall i | 0 <= i < |w| ensures !IsSpace(w[i]) {
        if i < |la| {
          assert w[i] == la[i];
        }
      }
    }
    assert la + ['\'', lx, ' ', '\'', ' '] + lb == w + rest;
    assert Split(w + rest) == [w] + Split(rest) by {
      SplitNonSpaceRun(w, rest);
    }
    assert Split(rest) == [['\''], lb] by {
      SplitSymbolThenWord('\'', lb);
    }
  }

  /** A padded symbol followed by a word run splits into the two. */
  lemma SplitSymbolThenWord(c: char, lb: string)
    requires !IsSpace(c) && IsWordRun(lb)
    ensures Split([' ', c, ' '] + lb) == [[c], lb]
  {
    assert [' ', c, ' '] + lb == [' '] + ([c] + ([' '] + lb));
    SplitLeadingSpaces([' '], [c] + ([' '] + lb));
    SplitNonSpaceRun([c], [' '] + lb);
    SplitLeadingSpaces([' '], lb);
    SplitNonSpaceRun(lb, []);
    assert lb + [] == lb;
  }

  /** Pass 2 resumes its scan after each match, so matches never overlap: in
      `a'x'b` with a one-character middle word only the first apostrophe is
      glued, and the second becomes a token of its own (`a'b'c` gives `a'b`,
      `'`, `c`). */
  lemma ApostropheChain(a: string, x: char, b: string)
    requires IsWordRun(a) && IsWordChar(x) && IsWordRun(b)
    ensures Tokenize(a + "'" + [x] + "'" + b) == [Lower(a) + "'" + [ToLower(x)], "'", Lower(b)]
  {
    PaddedChain(a, x, b);
    var la, lx, lb := Lower(a), ToLower(x), Lower(b);
    GlueFirstOfChain(la, lx, lb);
    NoEllipsisInChain(la, lx, lb);
    SplitChain(la, lx, lb);
    assert la + ['\'', lx] == la + "'" + [lx];
  }

  lemma PadEllipsis()
    ensures Pad("...") == " .  .  . "
  {
    assert "..." == ['.'] + (['.'] + ['.']);
    PadConcat(['.'], ['.'] + ['.']);
    PadConcat(['.'], ['.']);
    PadSymbol('.');
  }

  lemma PaddedEllipsis(a: string)
    requires IsWordRun(a)
    ensures Pad(Lower(a + "...")) == Lower(a) + " .  .  . "
  {
    LowerConcat(a, "...");
    assert Lower("...") == "...";
    PadConcat(Lower(a), "...");
    PadWordRun(Lower(a));
    PadEllipsis();
  }

  lemma JoinSpacedDots()
    ensures JoinEllipses(".  .  . ") == "... "
  {
    var m := ".  .  . ";
    assert SpaceRunEnd(m, 3) == 3;
    assert SpaceRunEnd(m, 1) == 3;
    assert SpaceRunEnd(m, 6) == 6;
    assert SpaceRunEnd(m, 4) == 6;
    assert EllipsisEnd(m) == Some(7);
    assert m[7..] == " ";
    assert EllipsisEnd(" ") == None;
    assert JoinEllipses(" ") == " ";
  }

  lemma PassesOnEllipsis(la: string)
    requires IsWordRun(la)
    ensures JoinEllipses(JoinApostrophes(la + " .  .  . ")) == la + " ... "
  {
    ApostrophesSkipEllipsis(la);
    EllipsesAfterWord(la);
  }

  lemma ApostrophesSkipEllipsis(la: string)
    requires IsWordRun(la)
    ensures JoinApostrophes(la + " .  .  . ") == la + " .  .  . "
  {
    var padded := la + " .  .  . ";
    forall i | 0 <= i < |padded| ensures padded[i] != '\'' {
      if i < |la| {
        assert padded[i] == la[i];
      }
    }
    JoinApostrophesNoApostrophe(padded);
  }

  lemma EllipsesAfterWord(la: string)
    requires IsWordRun(la)
    ensures JoinEllipses(la + " .  .  . ") == la + " ... "
  {
    var prefix := la + " ";
    assert JoinEllipses(la + " .  .  . ") == prefix + JoinEllipses(".  .  . ") by {
      assert la + " .  .  . " == prefix + ".  .  . ";
      forall i | 0 <= i < |prefix| ensures prefix[i] != '.' {
        if i < |la| {
          assert prefix[i] == la[i];
        }
      }
      JoinEllipsesNoDotPrefix(prefix, ".  .  . ");
    }
    JoinSpacedDots();
    assert " ... " == " " + "... ";
    assert prefix + "... " == la + (" " + "... ");
  }

  lemma SplitWordEllipsis(la: string)
    requires IsWordRun(la)
    ensures Split(la + " ... ") == [la, "..."]
  {
    assert la + " ... " == la + (" " + ("..." + " "));
    SplitNonSpaceRun(la, " " + ("..." + " "));
    SplitLeadingSpaces(" ", "..." + " ");
    SplitNonSpaceRun("...", " ");
    SplitLeadingSpaces(" ", []);
    assert " " + [] == " ";
  }

  /** A word followed by `...` gives the word and the ellipsis: `'More...'`. */
  lemma WordThenEllipsis(a: string)
    requires IsWordRun(a)
    ensures Tokenize(a + "...") == [Lower(a), "..."]
  {
    PaddedEllipsis(a);
    PassesOnEllipsis(Lower(a));
    SplitWordEllipsis(Lower(a));
  }
}
