/**
 * Whitespace tokenising as the test helper ResetArgs does it, with
 * boost::split(v, s, boost::is_space(), boost::token_compress_on):
 * the text is cut at every maximal run of whitespace; a leading or trailing
 * run yields an empty first or last token, and the empty text yields one
 * empty token.
 */
module Text {

  /** The characters boost::is_space accepts in the classic locale. */
  predicate IsSpace(c: char) {
    c == ' ' || c == '\t' || c == '\n' || c == '\r' || c == '\U{B}' || c == '\U{C}'
  }

  predicate NoSpace(s: string) {
    forall i :: 0 <= i < |s| ==> !IsSpace(s[i])
  }

  /** Position of the first whitespace character of s, or |s| when there is none. */
  function FirstSpace(s: string): (i: nat)
    ensures i <= |s|
    ensures NoSpace(s[..i])
    ensures i < |s| ==> IsSpace(s[i])
  {
    if s == [] || IsSpace(s[0]) then 0
    else
      var j := FirstSpace(s[1..]);
      assert s[..1 + j] == [s[0]] + s[1..][..j];
      1 + j
  }

  /** Length of the run of whitespace at the front of s. */
  function SpaceRun(s: string): (j: nat)
    ensures j <= |s|
    ensures forall k :: 0 <= k < j ==> IsSpace(s[k])
    ensures j < |s| ==> !IsSpace(s[j])
  {
    if s == [] || !IsSpace(s[0]) then 0 else 1 + SpaceRun(s[1..])
  }

  /** The tokens of s, as boost::split with token compression produces them. */
  function Split(s: string): (toks: seq<string>)
    ensures |toks| >= 1
    ensures forall k :: 0 <= k < |toks| ==> NoSpace(toks[k])
    ensures forall k :: 0 < k < |toks| - 1 ==> toks[k] != []
    ensures toks[0] == [] <==> (s == [] || IsSpace(s[0]))
    decreases |s|
  {
    var i := FirstSpace(s);
    if i == |s| then [s]
    else
      var j := i + SpaceRun(s[i..]);
      [s[..i]] + Split(s[j..])
  }

  /**
   * The reference for what splitting keeps of a text: s with every maximal run
   * of whitespace (spaces, tabs, newlines, ...) replaced by one ' '.
   */
  function Squeeze(s: string): string
    decreases |s|
  {
    if s == [] then []
    else if !IsSpace(s[0]) then [s[0]] + Squeeze(s[1..])
    else if |s| >= 2 && IsSpace(s[1]) then Squeeze(s[1..])
    else " " + Squeeze(s[1..])
  }

  /** Text without whitespace in front is kept as it is. */
  lemma {:induction false} SqueezeAppend(a: string, b: string)
    requires NoSpace(a)
    ensures Squeeze(a + b) == a + Squeeze(b)
  {
    if a != [] {
      var ab := a + b;
      assert ab[0] == a[0] && !IsSpace(a[0]);
      assert ab[1..] == a[1..] + b;
      assert Squeeze(ab) == [a[0]] + Squeeze(a[1..] + b);
      SqueezeAppend(a[1..], b);
      assert a == [a[0]] + a[1..];
      assert [a[0]] + (a[1..] + Squeeze(b)) == a + Squeeze(b);
    } else {
      assert a + b == b && a + Squeeze(b) == Squeeze(b);
    }
  }

  /** A whitespace run in front becomes one ' '. */
  lemma {:induction false} SqueezeRun(s: string)
    requires s != [] && IsSpace(s[0])
    ensures Squeeze(s) == " " + Squeeze(s[SpaceRun(s)..])
    decreases |s|
  {
    if |s| >= 2 && IsSpace(s[1]) {
      SqueezeRun(s[1..]);
      assert s[1..][SpaceRun(s[1..])..] == s[SpaceRun(s)..];
    } else {
      assert SpaceRun(s) == 1;
    }
  }

  /** The tokens written out with one space between neighbours. */
  function Join(toks: seq<string>): (s: string)
    requires |toks| >= 1
    ensures |toks[0]| <= |s| && s[..|toks[0]|] == toks[0]
  {
    if |toks| == 1 then toks[0] else toks[0] + " " + Join(toks[1..])
  }

  /**
   * Splitting undoes joining: for tokens without whitespace whose interior
   * members are non-empty (exactly the shapes Split produces), Split recovers
   * the tokens from their single-space join.
   */
  lemma {:induction false} SplitJoin(toks: seq<string>)
    requires |toks| >= 1
    requires forall k :: 0 <= k < |toks| ==> NoSpace(toks[k])
    requires forall k :: 0 < k < |toks| - 1 ==> toks[k] != []
    ensures Split(Join(toks)) == toks
  {
    var s := Join(toks);
    var t0 := toks[0];
    if |toks| == 1 {
      assert FirstSpace(s) == |s|;
    } else {
      var rest := Join(toks[1..]);
      assert s == t0 + " " + rest;
      var i := FirstSpace(s);
      assert s[..|t0|] == t0;
      assert s[|t0|] == ' ';
      assert i == |t0|;
      assert s[i..] == " " + rest;
      assert SpaceRun(s[i..]) == 1 by {
        if |toks| > 2 {
          assert toks[1] != [];
          assert rest[0] == toks[1][0];
        } else {
          assert rest == toks[1];
          if rest != [] {
            assert rest[0] == toks[1][0];
          }
        }
      }
      assert s[i + 1..] == rest;
      SplitJoin(toks[1..]);
    }
  }

  /**
   * Joining the tokens of any text with single spaces gives the text with each
   * whitespace run squeezed to one ' ': the tokens are the text's non-space
   * stretches, in order, cut at every run of any whitespace character.
   */
  lemma {:induction false} JoinSplit(s: string)
    ensures Join(Split(s)) == Squeeze(s)
    decreases |s|
  {
    var i := FirstSpace(s);
    if i == |s| {
      SplitNoSpace(s);
    } else {
      var j := i + SpaceRun(s[i..]);
      var head := s[..i];
      SplitAtRun(s, i, j);
      JoinCons(head, Split(s[j..]));
      JoinSplit(s[j..]);
      SqueezeAt(s, i, j);
    }
  }

  /** A text without whitespace is one token, and squeezing keeps it. */
  lemma SplitNoSpace(s: string)
    requires FirstSpace(s) == |s|
    ensures Split(s) == [s] && Join(Split(s)) == s && Squeeze(s) == s
  {
    assert s[..|s|] == s;
    SqueezeAppend(s, []);
    assert s + [] == s;
  }

  /** Squeezing a text with a whitespace run at i..j: the part before, one ' ', the rest squeezed. */
  lemma SqueezeAt(s: string, i: nat, j: nat)
    requires i < |s| && NoSpace(s[..i]) && IsSpace(s[i]) && j == i + SpaceRun(s[i..])
    ensures Squeeze(s) == s[..i] + " " + Squeeze(s[j..])
  {
    var head, tail := s[..i], s[i..];
    assert s == head + tail;
    SqueezeAppend(head, tail);
    assert tail[0] == s[i];
    SqueezeRun(tail);
    assert tail[SpaceRun(tail)..] == s[j..];
    assert head + (" " + Squeeze(s[j..])) == head + " " + Squeeze(s[j..]);
    assert s[i..][SpaceRun(s[i..])..] == s[j..];
  }

  /** Joining a token in front of at least one more: the token, a space, the rest joined. */
  lemma JoinCons(head: string, rest: seq<string>)
    requires |rest| >= 1
    ensures Join([head] + rest) == head + " " + Join(rest)
  {
    assert ([head] + rest)[1..] == rest;
  }

  /** A text with whitespace in it: its first token, then the tokens after the first run. */
  lemma SplitAtRun(s: string, i: nat, j: nat)
    requires i == FirstSpace(s) < |s| && j == i + SpaceRun(s[i..])
    ensures Split(s) == [s[..i]] + Split(s[j..])
  {
  }
}
