/**
 * The PHP built-ins the client relies on, restricted to strings:
 * trim() with its default character list, the truthiness test that
 * array_filter() and empty() apply to strings, implode(), and explode()
 * as the inverse of implode().
 */
module Php {

  /** The characters trim() strips by default: space, tab, line feed,
      carriage return, NUL and vertical tab. */
  predicate IsTrimSpace(c: char) {
    c == ' ' || c == '\t' || c == '\n' || c == '\r' || c == 0 as char || c == 11 as char
  }

  predicate AllTrimSpace(s: string) {
    forall k :: 0 <= k < |s| ==> IsTrimSpace(s[k])
  }

  /** No strippable character at either end. */
  predicate NoEdgeSpace(s: string) {
    s == [] || (!IsTrimSpace(s[0]) && !IsTrimSpace(s[|s| - 1]))
  }

  /** `r` occurs in `s` with nothing but strippable characters around it. */
  ghost predicate SpacePadded(s: string, r: string) {
    exists i :: 0 <= i <= |s| - |r| && AllTrimSpace(s[..i]) && s[i..i + |r|] == r && AllTrimSpace(s[i + |r|..])
  }

  function TrimLeft(s: string): (r: string)
    ensures |r| <= |s| && r == s[|s| - |r|..]
    ensures AllTrimSpace(s[..|s| - |r|])
    ensures r == [] || !IsTrimSpace(r[0])
  {
    if |s| > 0 && IsTrimSpace(s[0]) then
      var r := TrimLeft(s[1..]);
      StripOneMore(s, r);
      r
    else s
  }

  /** Stripping one more leading strippable character keeps TrimLeft's contract. */
  lemma StripOneMore(s: string, r: string)
    requires |s| > 0 && IsTrimSpace(s[0])
    requires |r| <= |s| - 1 && r == s[1..][|s| - 1 - |r|..]
    requires AllTrimSpace(s[1..][..|s| - 1 - |r|])
    ensures r == s[|s| - |r|..]
    ensures AllTrimSpace(s[..|s| - |r|])
  {
    var n := |s| - |r|;
    assert s[n..] == s[1..][n - 1..];
    forall k | 0 <= k < n ensures IsTrimSpace(s[..n][k]) {
      if k > 0 {
        assert s[..n][k] == s[1..][..n - 1][k - 1];
      }
    }
  }

  function TrimRight(s: string): (r: string)
    ensures |r| <= |s| && r == s[..|r|]
    ensures AllTrimSpace(s[|r|..])
    ensures r == [] || !IsTrimSpace(r[|r| - 1])
  {
    if |s| > 0 && IsTrimSpace(s[|s| - 1]) then
      var r := TrimRight(s[..|s| - 1]);
      assert s[|r|..] == s[..|s| - 1][|r|..] + [s[|s| - 1]];
      r
    else s
  }

  /** PHP's trim($s): strip strippable characters from both ends. */
  function Trim(s: string): (r: string)
    ensures |r| <= |s|
  {
    TrimRight(TrimLeft(s))
  }

  /** What trim() computes: the result sits inside `s` with only strippable
      characters around it, has none at its own ends, and is empty exactly
      when `s` consists of strippable characters only. */
  lemma TrimShape(s: string)
    ensures SpacePadded(s, Trim(s))
    ensures NoEdgeSpace(Trim(s))
    ensures Trim(s) == [] <==> AllTrimSpace(s)
  {
    var l := TrimLeft(s);
    var r := TrimRight(l);
    var i := |s| - |l|;
    TrimPaddedAt(s, l, r, i);
    if r != [] {
      assert r[0] == l[0];
      assert !AllTrimSpace(s) by { assert !IsTrimSpace(s[i]); }
    } else {
      TrimAllSpace(s, l, i);
    }
  }

  lemma TrimAllSpace(s: string, l: string, i: nat)
    requires i <= |s| && s[i..] == l
    requires AllTrimSpace(s[..i]) && AllTrimSpace(l)
    ensures AllTrimSpace(s)
  {
    forall k | 0 <= k < |s| ensures IsTrimSpace(s[k]) {
      if k < i {
        assert s[k] == s[..i][k];
      } else {
        assert s[k] == l[k - i];
      }
    }
  }

  lemma TrimPaddedAt(s: string, l: string, r: string, i: nat)
    requires i <= |s| && s[i..] == l && AllTrimSpace(s[..i])
    requires l == [] || !IsTrimSpace(l[0])
    requires |r| <= |l| && r == l[..|r|] && AllTrimSpace(l[|r|..])
    ensures i + |r| <= |s|
    ensures AllTrimSpace(s[..i]) && s[i..i + |r|] == r && AllTrimSpace(s[i + |r|..])
    ensures r != [] ==> !IsTrimSpace(s[i])
    ensures SpacePadded(s, r)
  {
    assert s[i..i + |r|] == l[..|r|];
    assert s[i + |r|..] == l[|r|..];
    PaddedAt(s, r, i);
  }

  lemma PaddedAt(s: string, r: string, i: nat)
    requires i + |r| <= |s|
    requires AllTrimSpace(s[..i]) && s[i..i + |r|] == r && AllTrimSpace(s[i + |r|..])
    ensures SpacePadded(s, r)
  {
  }

  /** PHP's loose truthiness of a string: exactly "" and "0" are falsy.
      array_filter() without a callback drops falsy elements, and empty()
      holds of falsy values. */
  predicate IsFalsy(s: string) {
    s == "" || s == "0"
  }

  /** array_filter($xs) on a list of strings, keeping the order of the survivors. */
  function FilterTruthy(xs: seq<string>): (r: seq<string>)
    ensures |r| <= |xs|
    ensures forall k :: 0 <= k < |r| ==> !IsFalsy(r[k])
  {
    if xs == [] then []
    else if IsFalsy(xs[0]) then FilterTruthy(xs[1..])
    else [xs[0]] + FilterTruthy(xs[1..])
  }

  /** array_filter() keeps exactly the truthy values. */
  lemma {:induction false} FilterTruthyMembers(xs: seq<string>, x: string)
    ensures x in FilterTruthy(xs) <==> x in xs && !IsFalsy(x)
  {
    if xs != [] {
      FilterTruthyMembers(xs[1..], x);
      assert xs == [xs[0]] + xs[1..];
    }
  }

  /** A list whose values are all PHP-falsy filters to nothing. */
  lemma {:induction false} FilterTruthyNone(xs: seq<string>)
    requires forall k :: 0 <= k < |xs| ==> IsFalsy(xs[k])
    ensures FilterTruthy(xs) == []
  {
    if xs != [] {
      FilterTruthyNone(xs[1..]);
    }
  }

  /** array_map("trim", $xs). */
  function MapTrim(xs: seq<string>): (r: seq<string>)
    ensures |r| == |xs|
    ensures forall k :: 0 <= k < |xs| ==> r[k] == Trim(xs[k])
  {
    seq(|xs|, k requires 0 <= k < |xs| => Trim(xs[k]))
  }

  /** implode($sep, $xs): the pieces in order, `sep` between neighbours. The
      result starts with the first piece, and with a non-empty separator it
      is empty only for no pieces or the single empty piece. */
  function Implode(sep: string, xs: seq<string>): (r: string)
    ensures |xs| >= 1 ==> |xs[0]| <= |r| && r[..|xs[0]|] == xs[0]
    ensures sep != "" ==> (r == "" <==> xs == [] || xs == [""])
  {
    if |xs| == 0 then ""
    else if |xs| == 1 then xs[0]
    else xs[0] + sep + Implode(sep, xs[1..])
  }

  /** explode($sep, $s) for a one-character separator: the maximal
      separator-free pieces of `s`, always at least one. */
  function Explode(sep: char, s: string): (r: seq<string>)
    ensures |r| >= 1
    ensures forall k :: 0 <= k < |r| ==> sep !in r[k]
    ensures Implode([sep], r) == s
  {
    if s == [] then [[]]
    else
      var rest := Explode(sep, s[1..]);
      if s[0] == sep then
        assert [sep] + Implode([sep], rest) == s;
        [[]] + rest
      else
        var r := [[s[0]] + rest[0]] + rest[1..];
        assert r[1..] == rest[1..];
        assert s == [s[0]] + s[1..];
        r
  }

  /** trim() is idempotent: a trimmed string has nothing left to strip. */
  lemma TrimIdempotent(s: string)
    ensures Trim(Trim(s)) == Trim(s)
  {
    var r := Trim(s);
    TrimShape(s);
    assert TrimLeft(r) == r;
    assert TrimRight(r) == r;
  }

  /** A string with nothing to strip at either end is its own trim. */
  lemma TrimUnchanged(s: string)
    requires NoEdgeSpace(s)
    ensures Trim(s) == s
  {
    assert TrimLeft(s) == s;
    assert TrimRight(s) == s;
  }

  /** One space on each side of a string with nothing to strip is trimmed away again. */
  lemma TrimPadded(s: string)
    requires NoEdgeSpace(s)
    ensures Trim([' '] + s + [' ']) == s
  {
    var p := [' '] + s + [' '];
    assert p[1..] == s + [' '];
    if s == [] {
      assert p[1..][1..] == [];
    } else {
      assert TrimLeft(s + [' ']) == s + [' '];
      assert (s + [' '])[..|s|] == s;
      TrimUnchanged(s);
    }
  }

  /** trim() only removes characters: every character of the result occurs in the input. */
  lemma TrimIntroducesNothing(c: char, s: string)
    requires c !in s
    ensures c !in Trim(s)
  {
    var l := TrimLeft(s);
    SliceAvoids(c, s, |s| - |l|, |s|);
    SliceAvoids(c, l, 0, |TrimRight(l)|);
  }

  lemma SliceAvoids(c: char, s: string, i: int, j: int)
    requires 0 <= i <= j <= |s| && c !in s
    ensures c !in s[i..j]
  {
    forall k | 0 <= k < j - i ensures s[i..j][k] != c {
      assert s[i..j][k] == s[i + k];
    }
  }

  /** array_filter distributes over concatenation, so it keeps survivors in their original order. */
  lemma {:induction false} FilterTruthyAppend(a: seq<string>, b: seq<string>)
    ensures FilterTruthy(a + b) == FilterTruthy(a) + FilterTruthy(b)
  {
    if a == [] {
      assert a + b == b;
    } else {
      assert (a + b)[1..] == a[1..] + b;
      FilterTruthyAppend(a[1..], b);
    }
  }

  lemma MapTrimAppend(a: seq<string>, b: seq<string>)
    ensures MapTrim(a + b) == MapTrim(a) + MapTrim(b)
  {
  }

  lemma ImplodeTwo(sep: string, x: string, y: string)
    ensures Implode(sep, [x, y]) == x + sep + y
  {
    assert [x, y][1..] == [y];
  }

  lemma ImplodeThree(sep: string, x: string, y: string, z: string)
    ensures Implode(sep, [x, y, z]) == x + sep + y + sep + z
  {
    assert [x, y, z][1..] == [y, z];
    ImplodeTwo(sep, y, z);
  }

  /** A character found neither in the separator nor in any piece is not in the imploded string. */
  lemma {:induction false} ImplodeAvoids(c: char, sep: string, xs: seq<string>)
    requires c !in sep
    requires forall k :: 0 <= k < |xs| ==> c !in xs[k]
    ensures c !in Implode(sep, xs)
  {
    if |xs| >= 2 {
      ImplodeAvoids(c, sep, xs[1..]);
    }
  }

  lemma {:induction false} ExplodeNoSeparator(sep: char, x: string)
    requires sep !in x
    ensures Explode(sep, x) == [x]
  {
    if x != [] {
      ExplodeNoSeparator(sep, x[1..]);
      assert x == [x[0]] + x[1..];
    }
  }

  lemma {:induction false} ExplodeAfterPiece(sep: char, x: string, t: string)
    requires sep !in x
    ensures Explode(sep, x + [sep] + t) == [x] + Explode(sep, t)
  {
    var s := x + [sep] + t;
    if x == [] {
      assert s[1..] == t;
    } else {
      assert s[1..] == x[1..] + [sep] + t;
      ExplodeAfterPiece(sep, x[1..], t);
      assert x == [x[0]] + x[1..];
    }
  }

  /** explode() undoes implode() when no piece contains the separator and there is at least one piece. */
  lemma {:induction false} ExplodeImplode(sep: char, xs: seq<string>)
    requires |xs| >= 1
    requires forall k :: 0 <= k < |xs| ==> sep !in xs[k]
    ensures Explode(sep, Implode([sep], xs)) == xs
  {
    if |xs| == 1 {
      ExplodeNoSeparator(sep, xs[0]);
    } else {
      ExplodeImplode(sep, xs[1..]);
      ExplodeAfterPiece(sep, xs[0], Implode([sep], xs[1..]));
      assert xs == [xs[0]] + xs[1..];
    }
  }
}
