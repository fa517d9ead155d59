/**
  The word splitting of the scroll-reveal heading
  (src/components/ui/ScrollReveal.tsx): `text.split(/(\s+)/)` cuts the text
  at every maximal run of whitespace and keeps the runs; the runs are put
  out as they are and every other piece becomes a word span keyed by its
  index.
 */
module ScrollReveal {
  import opened Base
  import opened Text

  /** The length of the leading run of non-whitespace characters. */
  function WordEnd(s: string): (i: nat)
    ensures i <= |s| && NoWhitespace(s[..i])
    ensures i < |s| ==> IsWhitespace(s[i])
    decreases |s|
  {
    if |s| == 0 || IsWhitespace(s[0]) then 0
    else
      var i := WordEnd(s[1..]);
      assert s[..i + 1] == [s[0]] + s[1..][..i];
      i + 1
  }

  /** The length of the leading run of whitespace characters. */
  function SpaceEnd(s: string): (i: nat)
    ensures i <= |s| && AllWhitespace(s[..i])
    ensures i < |s| ==> !IsWhitespace(s[i])
    decreases |s|
  {
    if |s| == 0 || !IsWhitespace(s[0]) then 0
    else
      var i := SpaceEnd(s[1..]);
      assert s[..i + 1] == [s[0]] + s[1..][..i];
      i + 1
  }

  /** The shape of `split(/(\s+)/)`'s result: an odd number of pieces, words
      (no whitespace) at even places and non-empty whitespace runs at odd
      places; only the first and the last word may be empty, so each run is
      maximal. */
  predicate Alternating(ts: seq<string>)
  {
    && |ts| % 2 == 1
    && (forall k :: 0 <= k < |ts| && k % 2 == 0 ==> NoWhitespace(ts[k]))
    && (forall k :: 0 <= k < |ts| && k % 2 == 1 ==> |ts[k]| > 0 && AllWhitespace(ts[k]))
    && (forall k :: 0 < k < |ts| - 1 && k % 2 == 0 ==> |ts[k]| > 0)
  }

  /** `text.split(/(\s+)/)`: the leading word, then (if the text goes on)
      the whitespace run after it and the pieces of the rest. The result
      has the alternating shape; the empty text gives one empty word, and a
      text that starts with a non-whitespace character starts with a
      non-empty word. */
  function Tokens(s: string): (ts: seq<string>)
    ensures Alternating(ts)
    ensures |s| == 0 ==> ts == [s]
    ensures |s| > 0 && !IsWhitespace(s[0]) ==> |ts[0]| > 0
    decreases |s|
  {
    var i := WordEnd(s);
    if i == |s| then [s]
    else
      var j := i + SpaceEnd(s[i..]);
      assert s[i..][..j - i] == s[i..j];
      assert j < |s| ==> s[j..][0] == s[i..][j - i];
      var rest := Tokens(s[j..]);
      AlternatingCons(s[..i], s[i..j], rest);
      [s[..i], s[i..j]] + rest
  }

  /** A word and a whitespace run in front of an alternating list keep the
      shape, provided the list's first word is non-empty unless it stands
      alone. */
  lemma AlternatingCons(a: string, b: string, rest: seq<string>)
    requires NoWhitespace(a) && |b| > 0 && AllWhitespace(b)
    requires Alternating(rest) && (|rest| > 1 ==> |rest[0]| > 0)
    ensures Alternating([a, b] + rest)
  {
    var ts := [a, b] + rest;
    forall k | 2 <= k < |ts|
      ensures ts[k] == rest[k - 2]
    {
    }
  }

  /** The alternating list after its first word and run is alternating, and
      its first word is non-empty unless it stands alone. */
  lemma AlternatingTail(ts: seq<string>)
    requires Alternating(ts) && |ts| > 1
    ensures Alternating(ts[2..]) && (|ts[2..]| > 1 ==> |ts[2..][0]| > 0)
  {
    var rest := ts[2..];
    forall k | 0 <= k < |rest|
      ensures rest[k] == ts[k + 2]
    {
    }
  }

  /** Joining a word, a run and a list. */
  lemma FlattenCons(a: string, b: string, rest: seq<string>)
    ensures Flatten([a, b] + rest) == a + b + Flatten(rest)
  {
    var ts := [a, b] + rest;
    assert ts[1..] == [b] + rest;
    assert ts[1..][1..] == rest;
  }

  /** Joining the pieces back together gives the text. */
  lemma {:induction false} TokensFlatten(s: string)
    ensures Flatten(Tokens(s)) == s
    decreases |s|
  {
    var i := WordEnd(s);
    if i == |s| {
      assert s[..i] == s;
      WordEndOf(s, []);
      assert s + [] == s;
      assert Flatten([s]) == s + Flatten([]);
    } else {
      var j := i + SpaceEnd(s[i..]);
      var a, b, f := s[..i], s[i..j], s[j..];
      assert s[i..][..j - i] == b;
      assert j < |s| ==> f[0] == s[i..][j - i];
      assert s == a + b + f;
      TokensStep(a, b, f);
      TokensFlatten(f);
      FlattenCons(a, b, Tokens(f));
    }
  }

  /** A word followed by text that starts with whitespace (or nothing) ends
      exactly where the word ends. */
  lemma {:induction false} WordEndOf(a: string, b: string)
    requires NoWhitespace(a)
    requires |b| == 0 || IsWhitespace(b[0])
    ensures WordEnd(a + b) == |a|
    decreases |a|
  {
    if |a| > 0 {
      assert (a + b)[1..] == a[1..] + b;
      WordEndOf(a[1..], b);
    } else {
      assert a + b == b;
    }
  }

  /** A whitespace run followed by text that starts with a non-whitespace
      character (or nothing) ends exactly where the run ends. */
  lemma {:induction false} SpaceEndOf(a: string, b: string)
    requires AllWhitespace(a)
    requires |b| == 0 || !IsWhitespace(b[0])
    ensures SpaceEnd(a + b) == |a|
    decreases |a|
  {
    if |a| > 0 {
      assert (a + b)[1..] == a[1..] + b;
      SpaceEndOf(a[1..], b);
    } else {
      assert a + b == b;
    }
  }

  /** How `Tokens` takes apart a word, a run and a text that does not start
      with whitespace. */
  lemma TokensStep(a: string, b: string, f: string)
    requires NoWhitespace(a) && |b| > 0 && AllWhitespace(b)
    requires |f| == 0 || !IsWhitespace(f[0])
    ensures Tokens(a + b + f) == [a, b] + Tokens(f)
  {
    var s := a + b + f;
    assert s == a + (b + f);
    assert (b + f)[0] == b[0];
    WordEndOf(a, b + f);
    var i := |a|;
    assert s[i..] == b + f;
    SpaceEndOf(b, f);
    var j := i + |b|;
    assert s[..i] == a && s[i..j] == b && s[j..] == f;
  }

  /** The text of an alternating list whose first word is non-empty unless
      it stands alone does not start with whitespace. */
  lemma FlattenStart(ts: seq<string>)
    requires Alternating(ts)
    requires |ts| > 1 ==> |ts[0]| > 0
    ensures |Flatten(ts)| == 0 || !IsWhitespace(Flatten(ts)[0])
  {
    assert Flatten(ts) == ts[0] + Flatten(ts[1..]);
    if |ts[0]| > 0 {
      assert Flatten(ts)[0] == ts[0][0];
    } else {
      assert ts[1..] == [];
    }
  }

  /** The split is the only one: any alternating list of pieces that joins
      back to the text is `Tokens` of it. */
  lemma {:induction false} TokensUnique(ts: seq<string>, s: string)
    requires Alternating(ts) && Flatten(ts) == s
    ensures ts == Tokens(s)
    decreases |ts|
  {
    if |ts| == 1 {
      assert Flatten(ts) == ts[0] + Flatten([]);
      WordEndOf(s, []);
      assert s + [] == s;
    } else {
      var rest := ts[2..];
      assert ts == [ts[0], ts[1]] + rest;
      FlattenCons(ts[0], ts[1], rest);
      AlternatingTail(ts);
      FlattenStart(rest);
      TokensStep(ts[0], ts[1], Flatten(rest));
      TokensUnique(rest, Flatten(rest));
    }
  }

  // ---------------------------------------------------------------------------
  // Rendering
  // ---------------------------------------------------------------------------

  /** A rendered piece: a whitespace run as plain text, or a word span with
      its key. */
  datatype Piece = Space(text: string) | Word(key: nat, text: string)

  /** `word.match(/^\s+$/)`: the piece is a non-empty whitespace run. */
  predicate IsSpaceRun(w: string)
  {
    |w| > 0 && AllWhitespace(w)
  }

  /** `splitText`. Each piece keeps its text; exactly the odd places are
      plain whitespace, and every word span (empty edge words included) is
      keyed by its place. */
  function SplitText(s: string): (ps: seq<Piece>)
    ensures |ps| == |Tokens(s)| && |ps| % 2 == 1
    ensures forall k :: 0 <= k < |ps| ==> ps[k].text == Tokens(s)[k]
    ensures forall k :: 0 <= k < |ps| ==> (ps[k].Space? <==> k % 2 == 1)
    ensures forall k :: 0 <= k < |ps| && ps[k].Word? ==> ps[k].key == k
  {
    var ts := Tokens(s);
    var ps := seq(|ts|, k requires 0 <= k < |ts| => if IsSpaceRun(ts[k]) then Space(ts[k]) else Word(k, ts[k]));
    forall k | 0 <= k < |ts| && k % 2 == 0 && |ts[k]| > 0
      ensures !IsSpaceRun(ts[k])
    {
      assert !IsWhitespace(ts[k][0]);
    }
    ps
  }

  /** The heading shows exactly the text it was given. */
  lemma SplitTextShowsText(s: string)
    ensures Flatten(Map(SplitText(s), (p: Piece) => p.text)) == s
  {
    assert Map(SplitText(s), (p: Piece) => p.text) == Tokens(s);
    TokensFlatten(s);
  }

  /** A text without whitespace is one word; the empty text is one empty
      word. */
  lemma SingleWord(s: string)
    requires NoWhitespace(s)
    ensures SplitText(s) == [Word(0, s)]
  {
    WordEndOf(s, []);
    assert s + [] == s;
  }
}
