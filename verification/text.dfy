/** String building and the matching scanning primitives used to read a
    rendered line back. */
module Text {
  import opened Wrappers

  /** The separator `Events` rendering puts between flag names. */
  const Bar: string := " | "

  /** Rust's `[&str]::join(sep)`. */
  function Join(xs: seq<string>, sep: string): (r: string)
    ensures xs == [] ==> r == ""
    ensures |xs| == 1 ==> r == xs[0]
  {
    if xs == [] then "" else if |xs| == 1 then xs[0] else xs[0] + sep + Join(xs[1..], sep)
  }

  /** Every character of s is accepted by ok. */
  predicate AllOf(s: string, ok: char -> bool) {
    forall i :: 0 <= i < |s| ==> ok(s[i])
  }

  /** Characters other than a closing brace, and other than a closing
      parenthesis: a string without that character is `AllOf` these. */
  predicate NotCloseBrace(c: char) {
    c != '}'
  }

  predicate NotCloseParen(c: char) {
    c != ')'
  }

  /** Joining strings accepted by ok, with a separator accepted by ok, yields a
      string accepted by ok. */
  lemma {:induction false} JoinAllOf(xs: seq<string>, sep: string, ok: char -> bool)
    requires forall j :: 0 <= j < |xs| ==> AllOf(xs[j], ok)
    requires AllOf(sep, ok)
    ensures AllOf(Join(xs, sep), ok)
  {
    if |xs| > 1 {
      JoinAllOf(xs[1..], sep, ok);
      AllOfConcat(xs[0], sep, ok);
      AllOfConcat(xs[0] + sep, Join(xs[1..], sep), ok);
    }
  }

  /** A concatenation is accepted character by character when both parts are. */
  lemma AllOfConcat(a: string, b: string, ok: char -> bool)
    requires AllOf(a, ok) && AllOf(b, ok)
    ensures AllOf(a + b, ok)
  {
    assert forall i :: 0 <= i < |b| ==> (a + b)[|a| + i] == b[i];
  }

  /** Length of the longest prefix of s whose characters ok accepts. */
  function PrefixWhile(s: string, ok: char -> bool): (k: nat)
    ensures k <= |s|
    ensures forall i :: 0 <= i < k ==> ok(s[i])
    ensures k < |s| ==> !ok(s[k])
  {
    if s == [] || !ok(s[0]) then 0 else 1 + PrefixWhile(s[1..], ok)
  }

  /** The scan stops exactly at the end of a run of accepted characters. */
  lemma PrefixWhileConcat(a: string, b: string, ok: char -> bool)
    requires AllOf(a, ok)
    requires b == [] || !ok(b[0])
    ensures PrefixWhile(a + b, ok) == |a|
  {
    assert forall i :: 0 <= i < |a| ==> (a + b)[i] == a[i];
    if b != [] {
      assert (a + b)[|a|] == b[0];
    }
  }

  /** Consumes the literal prefix lit of s, returning what follows it. */
  function Expect(s: string, lit: string): (r: Option<string>)
    ensures r.Some? <==> lit <= s
    ensures r.Some? ==> s == lit + r.value
  {
    if lit <= s then Some(s[|lit|..]) else None
  }

  lemma ExpectConcat(lit: string, rest: string)
    ensures Expect(lit + rest, lit) == Some(rest)
  {
    assert lit <= lit + rest;
    assert (lit + rest)[|lit|..] == rest;
  }

  /** Splits a `Bar`-separated list of non-empty tokens drawn from ok; None when
      s does not have that shape. */
  function SplitBar(s: string, ok: char -> bool): (r: Option<seq<string>>)
    decreases |s|
  {
    if s == [] then Some([])
    else
      var k := PrefixWhile(s, ok);
      if k == 0 then None
      else if k == |s| then Some([s])
      else if Bar <= s[k..] then
        match SplitBar(s[k + |Bar|..], ok)
        case Some(rest) => if rest == [] then None else Some([s[..k]] + rest)
        case None => None
      else None
  }

  /** Splitting a `Bar`-joined list recovers the list, provided its tokens are
      non-empty and drawn from characters the separator does not start with. */
  lemma {:induction false} SplitBarJoin(xs: seq<string>, ok: char -> bool)
    requires forall j :: 0 <= j < |xs| ==> |xs[j]| > 0 && AllOf(xs[j], ok)
    requires !ok(' ')
    ensures SplitBar(Join(xs, Bar), ok) == Some(xs)
  {
    if |xs| == 1 {
      SplitBarSingle(xs[0], ok);
      assert xs == [xs[0]];
    } else if |xs| > 1 {
      var x, rest := xs[0], xs[1..];
      assert forall j :: 0 <= j < |rest| ==> rest[j] == xs[j + 1];
      var tail := Join(rest, Bar);
      assert Join(xs, Bar) == x + (Bar + tail);
      SplitBarJoin(rest, ok);
      SplitBarCons(x, tail, rest, ok);
      assert [x] + rest == xs;
    }
  }

  /** A single token splits into itself. */
  lemma SplitBarSingle(x: string, ok: char -> bool)
    requires |x| > 0 && AllOf(x, ok)
    ensures SplitBar(x, ok) == Some([x])
  {
    PrefixWhileConcat(x, "", ok);
    assert x + "" == x;
  }

  /** One token in front of a separator and a list that splits: the token is
      read off and the rest splits as before. */
  lemma SplitBarCons(x: string, tail: string, rest: seq<string>, ok: char -> bool)
    requires |x| > 0 && AllOf(x, ok) && !ok(' ')
    requires SplitBar(tail, ok) == Some(rest) && rest != []
    ensures SplitBar(x + (Bar + tail), ok) == Some([x] + rest)
  {
    var s := x + (Bar + tail);
    var after := Bar + tail;
    assert after[0] == ' ';
    PrefixWhileConcat(x, after, ok);
    var k := PrefixWhile(s, ok);
    assert s[k..] == after && s[..k] == x;
    assert Bar <= after && after[|Bar|..] == tail;
    assert s[k + |Bar|..] == tail;
  }
}
