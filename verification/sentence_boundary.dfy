/** sentence_boundary.py: `re.split(r'(?<=[?.!])\s+', text)`. A match is a
    whitespace run whose first character follows `.`, `?` or `!`; the greedy
    `\s+` takes the whole run, and a run that follows anything else cannot
    match from its middle either, since the character before that is
    whitespace. So the text is cut at exactly the maximal whitespace runs that
    follow a sentence terminator, and the runs are dropped. */
module SentenceBoundary {
  import opened Chars
  import opened Tokenizer

  predicate IsTerminator(c: char)
  {
    c == '.' || c == '?' || c == '!'
  }

  /** The pattern matches at `i`: whitespace right after a terminator. */
  predicate CutAt(s: string, i: int)
  {
    0 < i < |s| && IsTerminator(s[i - 1]) && IsSpace(s[i])
  }

  /** The pieces, separated by the separators, spell the text. */
  function Join(pieces: seq<string>, separators: seq<string>): string
    requires |separators| + 1 == |pieces|
    decreases |pieces|
  {
    if |pieces| == 1 then pieces[0]
    else pieces[0] + separators[0] + Join(pieces[1..], separators[1..])
  }

  /** Where the scan may stand: inside a piece that began at `start` (at the
      beginning of the text or right after a cut-out run), with no match
      between the two. */
  predicate Scanning(s: string, start: nat, i: nat)
  {
    && start <= i <= |s|
    && (start == 0 || IsSpace(s[start - 1]))
    && forall k :: start < k < i ==> !CutAt(s, k)
  }

  /** The scan of `re.split` from `i`, in the piece that began at `start`:
      the pieces and the whitespace runs cut out between them. */
  function Cut(s: string, start: nat, i: nat): (r: (seq<string>, seq<string>))
    requires Scanning(s, start, i)
    ensures |r.0| >= 1 && |r.1| + 1 == |r.0|
    decreases |s| - i
  {
    if i == |s| then ([s[start..]], [])
    else if CutAt(s, i) then
      var j := SpaceRunEnd(s, i);
      var rest := Cut(s, j, j);
      ([s[start..i]] + rest.0, [s[i..j]] + rest.1)
    else
      Cut(s, start, i + 1)
  }

  /** `sentence_boundary`. */
  function SentenceBoundary(text: string): (r: seq<string>)
    ensures |r| >= 1
    ensures text == [] ==> r == [""]
  {
    Cut(text, 0, 0).0
  }

  /** The pieces and the runs cut out between them spell the input. */
  lemma {:induction false} CutJoins(s: string, start: nat, i: nat)
    requires Scanning(s, start, i)
    ensures Join(Cut(s, start, i).0, Cut(s, start, i).1) == s[start..]
    decreases |s| - i
  {
    if i < |s| {
      if CutAt(s, i) {
        var j := SpaceRunEnd(s, i);
        var rest, r := Cut(s, j, j), Cut(s, start, i);
        assert Join(r.0, r.1) == s[start..i] + (s[i..j] + Join(rest.0, rest.1)) by {
          assert r == ([s[start..i]] + rest.0, [s[i..j]] + rest.1);
          assert r.0[1..] == rest.0 && r.1[1..] == rest.1;
        }
        CutJoins(s, j, j);
        SliceInThree(s, start, i, j);
      } else {
        CutJoins(s, start, i + 1);
      }
    }
  }

  lemma SliceInThree(s: string, a: nat, b: nat, c: nat)
    requires a <= b <= c <= |s|
    ensures s[a..] == s[a..b] + (s[b..c] + s[c..])
  {
    var t := s[a..b] + (s[b..c] + s[c..]);
    forall k | 0 <= k < |t| ensures t[k] == s[a..][k] {
      if k < b - a {
        assert t[k] == s[a..b][k];
      } else if k < c - a {
        assert t[k] == s[b..c][k - (b - a)];
      } else {
        assert t[k] == s[c..][k - (c - a)];
      }
    }
    assert t == s[a..];
  }

  /** Every piece but the last ends with a sentence terminator, and every run
      cut out is non-empty whitespace. */
  lemma CutShape(s: string, start: nat, i: nat)
    requires Scanning(s, start, i)
    ensures forall p :: 0 <= p < |Cut(s, start, i).0| - 1 ==>
              Cut(s, start, i).0[p] != [] && IsTerminator(Cut(s, start, i).0[p][|Cut(s, start, i).0[p]| - 1])
    ensures forall p, k :: 0 <= p < |Cut(s, start, i).1| && 0 <= k < |Cut(s, start, i).1[p]| ==>
              IsSpace(Cut(s, start, i).1[p][k])
    ensures forall p :: 0 <= p < |Cut(s, start, i).1| ==> Cut(s, start, i).1[p] != []
  {
    CutPiecesEndSentences(s, start, i);
    CutSeparatorsAreSpace(s, start, i);
  }

  lemma {:induction false} CutPiecesEndSentences(s: string, start: nat, i: nat)
    requires Scanning(s, start, i)
    ensures forall p :: 0 <= p < |Cut(s, start, i).0| - 1 ==>
              Cut(s, start, i).0[p] != [] && IsTerminator(Cut(s, start, i).0[p][|Cut(s, start, i).0[p]| - 1])
    decreases |s| - i
  {
    if i < |s| {
      if CutAt(s, i) {
        var j := SpaceRunEnd(s, i);
        var rest, r := Cut(s, j, j), Cut(s, start, i);
        assert r.0 == [s[start..i]] + rest.0;
        CutPiecesEndSentences(s, j, j);
        forall p | 0 <= p < |r.0| - 1 ensures r.0[p] != [] && IsTerminator(r.0[p][|r.0[p]| - 1]) {
          if p == 0 {
            assert start < i;
            assert r.0[0] == s[start..i];
          } else {
            assert r.0[p] == rest.0[p - 1];
          }
        }
      } else {
        CutPiecesEndSentences(s, start, i + 1);
      }
    }
  }

  lemma {:induction false} CutSeparatorsAreSpace(s: string, start: nat, i: nat)
    requires Scanning(s, start, i)
    ensures forall p, k :: 0 <= p < |Cut(s, start, i).1| && 0 <= k < |Cut(s, start, i).1[p]| ==>
              IsSpace(Cut(s, start, i).1[p][k])
    ensures forall p :: 0 <= p < |Cut(s, start, i).1| ==> Cut(s, start, i).1[p] != []
    decreases |s| - i
  {
    if i < |s| {
      if CutAt(s, i) {
        var j := SpaceRunEnd(s, i);
        var rest, r := Cut(s, j, j), Cut(s, start, i);
        assert r.1 == [s[i..j]] + rest.1;
        CutSeparatorsAreSpace(s, j, j);
        forall p | 0 <= p < |r.1| ensures r.1[p] != [] && forall k :: 0 <= k < |r.1[p]| ==> IsSpace(r.1[p][k]) {
          if p == 0 {
            assert r.1[0] == s[i..j];
          } else {
            assert r.1[p] == rest.1[p - 1];
          }
        }
      } else {
        CutSeparatorsAreSpace(s, start, i + 1);
      }
    }
  }

  /** The pattern matches nowhere inside a piece, and no piece after the first
      starts with whitespace: each cut takes the whole run. */
  lemma {:induction false} CutPiecesHaveNoCut(s: string, start: nat, i: nat)
    requires Scanning(s, start, i)
    ensures forall p, k :: 0 <= p < |Cut(s, start, i).0| && 0 < k < |Cut(s, start, i).0[p]| ==>
              !CutAt(Cut(s, start, i).0[p], k)
    ensures forall p :: 0 < p < |Cut(s, start, i).0| ==>
              Cut(s, start, i).0[p] == [] || !IsSpace(Cut(s, start, i).0[p][0])
    decreases |s| - i
  {
    if i == |s| {
      PieceHasNoCut(s, start, i);
      assert s[start..i] == s[start..];
    } else if CutAt(s, i) {
      var j := SpaceRunEnd(s, i);
      CutPiecesHaveNoCut(s, j, j);
      PieceHasNoCut(s, start, i);
      var rest := Cut(s, j, j);
      var r := Cut(s, start, i);
      assert r.0 == [s[start..i]] + rest.0;
      forall p | 0 < p < |r.0| ensures r.0[p] == rest.0[p - 1] {}
      assert j == |s| || !IsSpace(s[j]);
      assert rest.0[0] == [] || rest.0[0][0] == s[j] by {
        CutFirstPiece(s, j, j);
      }
    } else {
      CutPiecesHaveNoCut(s, start, i + 1);
    }
  }

  /** The first piece starts where the scan began its piece. */
  lemma {:induction false} CutFirstPiece(s: string, start: nat, i: nat)
    requires Scanning(s, start, i)
    ensures Cut(s, start, i).0[0] <= s[start..]
    decreases |s| - i
  {
    if i < |s| && !CutAt(s, i) {
      CutFirstPiece(s, start, i + 1);
    }
  }

  /** No cut falls inside `s[start..i]`. */
  lemma PieceHasNoCut(s: string, start: nat, i: nat)
    requires start <= i <= |s|
    requires forall k :: start < k < i ==> !CutAt(s, k)
    ensures forall k :: 0 < k < i - start ==> !CutAt(s[start..i], k)
  {
    forall k | 0 < k < i - start ensures !CutAt(s[start..i], k) {
      assert !CutAt(s, start + k);
    }
  }

  /** Text where no terminator is followed by whitespace comes back whole. */
  lemma {:induction false} NoCutKeepsText(s: string, start: nat, i: nat)
    requires Scanning(s, start, i)
    requires forall k :: i <= k < |s| ==> !CutAt(s, k)
    ensures Cut(s, start, i).0 == [s[start..]]
    decreases |s| - i
  {
    if i < |s| {
      NoCutKeepsText(s, start, i + 1);
    }
  }

  /** What `sentence_boundary` promises: the pieces, rejoined with the
      whitespace runs removed between them, give back the text; every piece
      but the last ends a sentence; and no piece holds another boundary. */
  lemma SentenceBoundarySpec(text: string) returns (separators: seq<string>)
    ensures |separators| + 1 == |SentenceBoundary(text)|
    ensures Join(SentenceBoundary(text), separators) == text
    ensures forall p :: 0 <= p < |separators| ==>
              separators[p] != [] && forall k :: 0 <= k < |separators[p]| ==> IsSpace(separators[p][k])
    ensures forall p :: 0 <= p < |SentenceBoundary(text)| - 1 ==>
              SentenceBoundary(text)[p] != [] &&
              IsTerminator(SentenceBoundary(text)[p][|SentenceBoundary(text)[p]| - 1])
    ensures forall p, k :: 0 <= p < |SentenceBoundary(text)| && 0 < k < |SentenceBoundary(text)[p]| ==>
              !CutAt(SentenceBoundary(text)[p], k)
    ensures forall p :: 0 < p < |SentenceBoundary(text)| ==>
              SentenceBoundary(text)[p] == [] || !IsSpace(SentenceBoundary(text)[p][0])
  {
    separators := Cut(text, 0, 0).1;
    CutJoins(text, 0, 0);
    CutShape(text, 0, 0);
    CutPiecesHaveNoCut(text, 0, 0);
    assert text[0..] == text;
  }

  /** Text without a terminator followed by whitespace is one piece. */
  lemma NoBoundaryIsOnePiece(text: string)
    requires forall k :: 0 <= k < |text| ==> !CutAt(text, k)
    ensures SentenceBoundary(text) == [text]
  {
    NoCutKeepsText(text, 0, 0);
    assert text[0..] == text;
  }
}
