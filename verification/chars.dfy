/** Character classes used by the tokenizer's regular expressions, with ASCII
    semantics: `\w` is letters, digits and underscore; `\s` (and `str.split()`)
    whitespace is tab, line feed, vertical tab, form feed, carriage return, the
    four information separators 0x1C-0x1F and space; `lower()` maps `A`-`Z` to
    `a`-`z`. Other code points are non-word, non-space and unchanged by
    lower-casing. */
module Chars {

  predicate IsWordChar(c: char)
  {
    ('a' <= c <= 'z') || ('A' <= c <= 'Z') || ('0' <= c <= '9') || c == '_'
  }

  predicate IsSpace(c: char)
  {
    (9 <= c as int <= 13) || (28 <= c as int <= 32)
  }

  predicate IsUpper(c: char)
  {
    'A' <= c <= 'Z'
  }

  function ToLower(c: char): (r: char)
    ensures !IsUpper(r)
    ensures IsWordChar(r) <==> IsWordChar(c)
    ensures IsSpace(r) <==> IsSpace(c)
    ensures !IsUpper(c) ==> r == c
  {
    if IsUpper(c) then (c as int + 32) as char else c
  }

  /** `str.lower()`. */
  function Lower(s: string): (r: string)
    ensures |r| == |s|
    ensures forall i :: 0 <= i < |s| ==> r[i] == ToLower(s[i])
  {
    seq(|s|, i requires 0 <= i < |s| => ToLower(s[i]))
  }

  lemma LowerConcat(a: string, b: string)
    ensures Lower(a + b) == Lower(a) + Lower(b)
  {
  }

  /** The characters of `s` that are not whitespace, in order. */
  function NonSpace(s: string): (r: string)
    ensures forall i :: 0 <= i < |r| ==> !IsSpace(r[i])
    ensures |r| <= |s|
  {
    if s == [] then []
    else (if IsSpace(s[0]) then [] else [s[0]]) + NonSpace(s[1..])
  }

  lemma {:induction false} NonSpaceConcat(a: string, b: string)
    ensures NonSpace(a + b) == NonSpace(a) + NonSpace(b)
  {
    if a != [] {
      assert (a + b)[1..] == a[1..] + b;
      NonSpaceConcat(a[1..], b);
    } else {
      assert a + b == b;
    }
  }

  lemma {:induction false} NonSpaceOfSpaces(s: string)
    requires forall i :: 0 <= i < |s| ==> IsSpace(s[i])
    ensures NonSpace(s) == []
  {
    if s != [] {
      NonSpaceOfSpaces(s[1..]);
    }
  }

  lemma {:induction false} NonSpaceOfNonSpaces(s: string)
    requires forall i :: 0 <= i < |s| ==> !IsSpace(s[i])
    ensures NonSpace(s) == s
  {
    if s != [] {
      NonSpaceOfNonSpaces(s[1..]);
    }
  }

  lemma {:induction false} NonSpaceLower(s: string)
    ensures NonSpace(Lower(s)) == Lower(NonSpace(s))
  {
    if s != [] {
      var head := if IsSpace(s[0]) then [] else [s[0]];
      assert NonSpace(Lower(s)) == Lower(head) + NonSpace(Lower(s[1..])) by {
        assert Lower(s)[1..] == Lower(s[1..]);
      }
      NonSpaceLower(s[1..]);
      assert Lower(NonSpace(s)) == Lower(head) + Lower(NonSpace(s[1..])) by {
        LowerConcat(head, NonSpace(s[1..]));
      }
    }
  }

  lemma NonSpaceThenDot(p: string)
    ensures NonSpace(p + ['.']) == NonSpace(p) + ['.']
  {
    NonSpaceConcat(p, ['.']);
    assert NonSpace(['.']) == ['.'] + NonSpace([]);
  }

  lemma NonSpaceDotSpaces(a: string)
    requires forall i :: 0 <= i < |a| ==> IsSpace(a[i])
    ensures NonSpace(['.'] + a) == ['.']
  {
    NonSpaceOfSpaces(a);
    NonSpaceConcat(['.'], a);
    assert NonSpace(['.']) == ['.'] + NonSpace([]);
  }

  lemma NonSpaceDotSpacesDot(a: string)
    requires forall i :: 0 <= i < |a| ==> IsSpace(a[i])
    ensures NonSpace(['.'] + a + ['.']) == ['.', '.']
  {
    NonSpaceDotSpaces(a);
    NonSpaceThenDot(['.'] + a);
  }

  /** The whitespace-free content of a match of `.\s+.\s+.` is `...`. */
  lemma NonSpaceOfEllipsis(a: string, b: string)
    requires forall i :: 0 <= i < |a| ==> IsSpace(a[i])
    requires forall i :: 0 <= i < |b| ==> IsSpace(b[i])
    ensures NonSpace(['.'] + a + ['.'] + b + ['.']) == "..."
  {
    var y := ['.'] + a + ['.'];
    assert NonSpace(y) == ['.', '.'] by { NonSpaceDotSpacesDot(a); }
    assert NonSpace(y + b) == ['.', '.'] by {
      NonSpaceOfSpaces(b);
      NonSpaceConcat(y, b);
    }
    NonSpaceThenDot(y + b);
  }
}
