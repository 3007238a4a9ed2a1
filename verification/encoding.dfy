/**
 * The string encoding FootballClient::setParam and ::setSelect apply to
 * list-shaped values: each list of values becomes a `,`-joined list of
 * items, and a grouped value `name => [values]` becomes the `;`-joined
 * list of `name:items` segments, in the caller's order.
 */
module Encoding {
  import Php

  /** One entry `name => [values]` of a grouped include/filter value. */
  datatype Group = Group(name: string, values: seq<string>)

  /** The items a value list contributes: array_filter() first (dropping
      "" and "0"), then trim() on every survivor. */
  function Items(values: seq<string>): (r: seq<string>)
    ensures |r| <= |values|
  {
    Php.MapTrim(Php.FilterTruthy(values))
  }

  /** x is an item exactly when it is the trimmed form of some truthy value. */
  lemma ItemsMembers(values: seq<string>, x: string)
    ensures x in Items(values) <==> exists v :: v in values && !Php.IsFalsy(v) && Php.Trim(v) == x
  {
    var kept := Php.FilterTruthy(values);
    var r := Items(values);
    if x in r {
      var k :| 0 <= k < |r| && r[k] == x;
      Php.FilterTruthyMembers(values, kept[k]);
    }
    if v :| v in values && !Php.IsFalsy(v) && Php.Trim(v) == x {
      Php.FilterTruthyMembers(values, v);
      var k :| 0 <= k < |kept| && kept[k] == v;
      assert r[k] == x;
    }
  }

  /** implode(",", array_map("trim", array_filter($values))). The result is
      empty exactly when there are no items or the one item is empty. */
  function EncodeItems(values: seq<string>): (r: string)
    ensures r == "" <==> Items(values) == [] || Items(values) == [""]
  {
    Php.Implode(",", Items(values))
  }

  /** The segment one group contributes: `name:` followed by its items.
      Cutting it at its first `:` gives the name and the items back
      whenever the name has no `:` of its own. */
  function Segment(g: Group): (r: string)
    ensures |r| > |g.name|
    ensures ':' !in g.name ==> SplitAtFirst(':', r) == (g.name, EncodeItems(g.values))
  {
    var r := g.name + ":" + EncodeItems(g.values);
    assert r == g.name + [':'] + EncodeItems(g.values);
    if ':' !in g.name then SplitAtFirstAfter(':', g.name, EncodeItems(g.values)); r else r
  }

  function Segments(groups: seq<Group>): (r: seq<string>)
    ensures |r| == |groups|
    ensures forall k :: 0 <= k < |groups| ==> r[k] == Segment(groups[k])
  {
    seq(|groups|, k requires 0 <= k < |groups| => Segment(groups[k]))
  }

  /** The grouped form of setParam: one segment per group, joined with `;`.
      Every group contributes at least its `name:`, so only the empty
      grouping encodes to "". */
  function EncodeGroups(groups: seq<Group>): (r: string)
    ensures r == "" <==> groups == []
  {
    Php.Implode(";", Segments(groups))
  }

  /** setParam's foreach over the grouping, one segment appended per group,
      then implode(";", ...). */
  method EncodeGroupsByLoop(groups: seq<Group>) returns (encoded: string)
    ensures encoded == EncodeGroups(groups)
  {
    var segs := Segments(groups);
    var paramValue: seq<string> := [];
    for i := 0 to |groups|
      invariant paramValue == segs[..i]
    {
      assert segs[..i + 1] == segs[..i] + [segs[i]];
      paramValue := paramValue + [Segment(groups[i])];
    }
    assert segs[..|groups|] == segs;
    encoded := Php.Implode(";", paramValue);
  }

  // ---------------------------------------------------------------------
  // Item-level properties

  /** Items is computed value by value: the items of a concatenation are
      the concatenated items, so the survivors keep their relative order. */
  lemma ItemsAppend(a: seq<string>, b: seq<string>)
    ensures Items(a + b) == Items(a) + Items(b)
  {
    Php.FilterTruthyAppend(a, b);
    Php.MapTrimAppend(Php.FilterTruthy(a), Php.FilterTruthy(b));
  }

  /** A single value contributes nothing when PHP-falsy, and its trimmed self otherwise. */
  lemma ItemsOfOne(v: string)
    ensures Php.IsFalsy(v) ==> Items([v]) == []
    ensures !Php.IsFalsy(v) ==> Items([v]) == [Php.Trim(v)]
  {
    assert [v][1..] == [];
  }

  /** Filtering happens before trimming: an empty item appears exactly
      when some non-empty value consists of strippable characters only. */
  lemma EmptyItemIff(values: seq<string>)
    ensures "" in Items(values) <==> exists v :: v in values && v != "" && Php.AllTrimSpace(v)
  {
    ItemsMembers(values, "");
    forall v | v in values
      ensures (!Php.IsFalsy(v) && Php.Trim(v) == "") <==> (v != "" && Php.AllTrimSpace(v))
    {
      BlankIff(v);
    }
  }

  /** A value yields the empty item exactly when it is non-empty and all strippable. */
  lemma BlankIff(v: string)
    ensures (!Php.IsFalsy(v) && Php.Trim(v) == "") <==> (v != "" && Php.AllTrimSpace(v))
  {
    Php.TrimShape(v);
    if v != "" && Php.AllTrimSpace(v) {
      assert Php.IsTrimSpace(v[0]);
      assert v[0] != '0';
    }
  }

  /** The characters of the encoded items come from the values and the `,` separator. */
  lemma EncodeItemsAvoids(c: char, values: seq<string>)
    requires c != ','
    requires forall k :: 0 <= k < |values| ==> c !in values[k]
    ensures c !in EncodeItems(values)
  {
    var items := Items(values);
    forall k | 0 <= k < |items| ensures c !in items[k] {
      ItemsMembers(values, items[k]);
      var v :| v in values && !Php.IsFalsy(v) && Php.Trim(v) == items[k];
      Php.TrimIntroducesNothing(c, v);
    }
    Php.ImplodeAvoids(c, ",", items);
  }

  // ---------------------------------------------------------------------
  // Segment structure of the grouped encoding

  /** No group name or value contains the separator character `c`. */
  predicate GroupAvoids(c: char, g: Group) {
    c !in g.name && forall k :: 0 <= k < |g.values| ==> c !in g.values[k]
  }

  predicate AllGroupsAvoid(c: char, groups: seq<Group>) {
    forall k :: 0 <= k < |groups| ==> GroupAvoids(c, groups[k])
  }

  /** When no name or value contains `;`, splitting the encoding at `;`
      yields one segment per group, in order, and segment i is the i-th
      group's name, a colon and that group's items. */
  lemma SegmentStructure(groups: seq<Group>)
    requires |groups| >= 1
    requires AllGroupsAvoid(';', groups)
    ensures |Php.Explode(';', EncodeGroups(groups))| == |groups|
    ensures forall i :: 0 <= i < |groups| ==>
      var seg := Php.Explode(';', EncodeGroups(groups))[i];
      seg == Segment(groups[i]) &&
      |seg| > |groups[i].name| && seg[..|groups[i].name| + 1] == groups[i].name + ":"
  {
    var segs := Segments(groups);
    forall k | 0 <= k < |segs| ensures ';' !in segs[k] {
      EncodeItemsAvoids(';', groups[k].values);
    }
    Php.ExplodeImplode(';', segs);
    forall i | 0 <= i < |groups|
      ensures |segs[i]| > |groups[i].name| && segs[i][..|groups[i].name| + 1] == groups[i].name + ":"
    {
      var n := groups[i].name;
      assert segs[i] == (n + ":") + EncodeItems(groups[i].values);
    }
  }

  /** A single group is encoded as `name:` followed by exactly what the
      select parameter stores for the same value list. */
  lemma SingleGroup(name: string, values: seq<string>)
    ensures EncodeGroups([Group(name, values)]) == name + ":" + EncodeItems(values)
  {
  }

  // ---------------------------------------------------------------------
  // Worked cases

  /** A value that array_filter() keeps and trim() leaves as it is. */
  predicate Plain(v: string) {
    !Php.IsFalsy(v) && Php.NoEdgeSpace(v)
  }

  lemma ItemsOfPlain(v: string)
    requires Plain(v)
    ensures Items([v]) == [v]
  {
    ItemsOfOne(v);
    Php.TrimUnchanged(v);
  }

  lemma ItemsOfThree(x: string, y: string, z: string)
    ensures Items([x, y, z]) == Items([x]) + Items([y]) + Items([z])
  {
    assert [x, y, z] == [x] + ([y] + [z]);
    ItemsAppend([x], [y] + [z]);
    ItemsAppend([y], [z]);
  }

  /** A non-empty value made of strippable characters only is truthy and
      trims to the empty item. */
  lemma ItemsOfBlank(w: string)
    requires w != "" && Php.AllTrimSpace(w)
    ensures Items([w]) == [""]
  {
    BlankIff(w);
    ItemsOfOne(w);
  }

  /** Three values that contribute one item each are encoded as those
      items joined with `,`. */
  lemma EncodeThreeItems(x: string, y: string, z: string, ix: string, iy: string, iz: string)
    requires Items([x]) == [ix] && Items([y]) == [iy] && Items([z]) == [iz]
    ensures EncodeItems([x, y, z]) == ix + "," + iy + "," + iz
  {
    ItemsOfThree(x, y, z);
    JoinThreeSingles(Items([x, y, z]), ix, iy, iz);
  }

  lemma JoinThreeSingles(items: seq<string>, ix: string, iy: string, iz: string)
    requires items == [ix] + [iy] + [iz]
    ensures Php.Implode(",", items) == ix + "," + iy + "," + iz
  {
    assert items == [ix, iy, iz];
    Php.ImplodeThree(",", ix, iy, iz);
  }

  /** A whitespace-only value survives array_filter() and becomes an empty
      item: ["goal", " ", "card"] encodes to "goal,,card". */
  lemma BlankValueKeepsEmptyItem(a: string, w: string, b: string)
    requires Plain(a) && Plain(b)
    requires w != "" && Php.AllTrimSpace(w)
    ensures EncodeItems([a, w, b]) == a + ",," + b
  {
    ItemsOfPlain(a);
    ItemsOfBlank(w);
    ItemsOfPlain(b);
    EncodeThreeItems(a, w, b, a, "", b);
    CommaEmptyComma(a, b);
  }

  lemma CommaEmptyComma(a: string, b: string)
    ensures a + "," + "" + "," + b == a + ",," + b
  {
    assert a + "," + "" == a + ",";
    assert (a + ",") + "," == a + ",,";
  }

  /** Empty values are dropped and surrounding blanks trimmed:
      ["name", "", " id "] encodes to "name,id". */
  lemma EmptyDroppedPaddingTrimmed(a: string, b: string)
    requires Plain(a) && Plain(b)
    ensures EncodeItems([a, "", " " + b + " "]) == a + "," + b
  {
    var p := " " + b + " ";
    ItemsOfPadded(b);
    ItemsOfOne("");
    ItemsOfPlain(a);
    ItemsOfThree(a, "", p);
    JoinTwoSingles(Items([a, "", p]), a, b);
  }

  /** A value with nothing to strip, padded by one space on each side, is
      truthy and trims back to itself. */
  lemma ItemsOfPadded(v: string)
    requires Php.NoEdgeSpace(v)
    ensures Items([" " + v + " "]) == [v]
  {
    var p := " " + v + " ";
    assert p == [' '] + v + [' '];
    Php.TrimPadded(v);
    ItemsOfOne(p);
  }

  lemma JoinTwoSingles(items: seq<string>, ix: string, iz: string)
    requires items == [ix] + [] + [iz]
    ensures Php.Implode(",", items) == ix + "," + iz
  {
    assert items == [ix, iz];
    Php.ImplodeTwo(",", ix, iz);
  }

  /** "0" is falsy and dropped wherever it appears. */
  lemma ZeroDropped(a: seq<string>, b: seq<string>)
    ensures Items(a + ["0"] + b) == Items(a + b)
    ensures EncodeItems(a + ["0"] + b) == EncodeItems(a + b)
  {
    ItemsOfOne("0");
    ItemsDropMiddle(a, ["0"], b);
  }

  /** Values that contribute no items can be removed from anywhere in the list. */
  lemma ItemsDropMiddle(a: seq<string>, z: seq<string>, b: seq<string>)
    requires Items(z) == []
    ensures Items(a + z + b) == Items(a + b)
  {
    ItemsAppend(a + z, b);
    ItemsAppend(a, z);
    ItemsAppend(a, b);
  }

  /** " 0 " is truthy, so it survives array_filter() and trims to the item "0". */
  lemma PaddedZeroKept()
    ensures Items([" 0 "]) == ["0"]
  {
    assert Php.NoEdgeSpace("0");
    ItemsOfPadded("0");
    assert " " + "0" + " " == " 0 ";
  }

  /** A group none of whose values survives array_filter() still
      contributes its bare `name:` segment. */
  lemma NoSurvivorsSegment(g: Group)
    requires forall k :: 0 <= k < |g.values| ==> Php.IsFalsy(g.values[k])
    ensures Segment(g) == g.name + ":"
  {
    Php.FilterTruthyNone(g.values);
    assert Items(g.values) == [];
    assert EncodeItems(g.values) == "";
  }

  /** An instance of the above: {a: ["x"], b: []} encodes to "a:x;b:". */
  lemma EmptyGroupKept(a: string, x: string, b: string)
    requires Plain(x)
    ensures EncodeGroups([Group(a, [x]), Group(b, [])]) == (a + ":" + x) + ";" + (b + ":")
  {
    EncodeTwoGroups(Group(a, [x]), Group(b, []));
    assert Segment(Group(a, [x])) == a + ":" + x by {
      ItemsOfPlain(x);
    }
    NoSurvivorsSegment(Group(b, []));
  }

  lemma EncodeTwoGroups(g0: Group, g1: Group)
    ensures EncodeGroups([g0, g1]) == Segment(g0) + ";" + Segment(g1)
  {
    assert Segments([g0, g1]) == [Segment(g0), Segment(g1)];
    Php.ImplodeTwo(";", Segment(g0), Segment(g1));
  }

  /** The alternative order, trim first and then drop blank results. */
  function TrimThenDropBlanks(values: seq<string>): (r: seq<string>)
    ensures forall k :: 0 <= k < |r| ==> r[k] != ""
  {
    if values == [] then []
    else
      var t := Php.Trim(values[0]);
      (if t == "" then [] else [t]) + TrimThenDropBlanks(values[1..])
  }

  /** The two orders agree exactly on value lists where PHP-falsiness and
      blankness after trimming coincide, i.e. no value is "0" and no
      non-empty value is whitespace only. */
  lemma {:induction false} OrdersAgreeWhenFalsyIsBlank(values: seq<string>)
    requires forall k :: 0 <= k < |values| ==> (Php.IsFalsy(values[k]) <==> Php.Trim(values[k]) == "")
    ensures Items(values) == TrimThenDropBlanks(values)
  {
    if values != [] {
      ItemsAppend([values[0]], values[1..]);
      assert values == [values[0]] + values[1..];
      ItemsOfOne(values[0]);
      OrdersAgreeWhenFalsyIsBlank(values[1..]);
    }
  }

  /** ...and they differ on the list [" "]: the source keeps one empty item. */
  lemma OrdersDifferOnBlank()
    ensures Items([" "]) == [""] && TrimThenDropBlanks([" "]) == []
  {
    ItemsOfOne(" ");
    assert Php.Trim(" ") == "";
  }

  // ---------------------------------------------------------------------
  // Decoding: the inverse of the grouped encoding

  /** The text before the first `c` and the text after it; the whole text
      and "" when there is no `c`. */
  function SplitAtFirst(c: char, s: string): (r: (string, string))
    ensures c !in r.0
    ensures c in s ==> s == r.0 + [c] + r.1
    ensures c !in s ==> r == (s, "")
  {
    if s == [] then ("", "")
    else if s[0] == c then ("", s[1..])
    else
      var (a, b) := SplitAtFirst(c, s[1..]);
      assert s == [s[0]] + s[1..];
      ([s[0]] + a, b)
  }

  function DecodeItems(s: string): seq<string> {
    if s == "" then [] else Php.Explode(',', s)
  }

  function DecodeSegment(seg: string): Group {
    var (name, rest) := SplitAtFirst(':', seg);
    Group(name, DecodeItems(rest))
  }

  /** Reads an encoded grouped value back into groups of items. */
  function DecodeGroups(s: string): (r: seq<Group>)
    ensures s == "" <==> r == []
  {
    if s == "" then []
    else
      var segs := Php.Explode(';', s);
      seq(|segs|, k requires 0 <= k < |segs| => DecodeSegment(segs[k]))
  }

  /** The groups as the encoding sees them: names kept, values replaced by their items. */
  function Canonical(groups: seq<Group>): (r: seq<Group>)
    ensures |r| == |groups|
    ensures forall k :: 0 <= k < |groups| ==> r[k].name == groups[k].name && r[k].values == Items(groups[k].values)
  {
    seq(|groups|, k requires 0 <= k < |groups| => Group(groups[k].name, Items(groups[k].values)))
  }

  /** The group can be read back: its name has no `:` or `;`, its values
      have no `,` or `;`, and its items are not the single empty item
      (which would be indistinguishable from no items at all). */
  predicate Decodable(g: Group) {
    ':' !in g.name && GroupAvoids(';', g) && GroupAvoids(',', Group("", g.values)) && Items(g.values) != [""]
  }

  lemma {:induction false} EncodeItemsRoundTrip(values: seq<string>)
    requires forall k :: 0 <= k < |values| ==> ',' !in values[k]
    requires Items(values) != [""]
    ensures DecodeItems(EncodeItems(values)) == Items(values)
  {
    var items := Items(values);
    forall k | 0 <= k < |items| ensures ',' !in items[k] {
      ItemsMembers(values, items[k]);
      var v :| v in values && !Php.IsFalsy(v) && Php.Trim(v) == items[k];
      Php.TrimIntroducesNothing(',', v);
    }
    if |items| >= 1 {
      if |items| >= 2 {
        assert ',' in Php.Implode(",", items);
      }
      Php.ExplodeImplode(',', items);
    }
  }

  lemma DecodeSegmentOfSegment(g: Group)
    requires Decodable(g)
    ensures DecodeSegment(Segment(g)) == Group(g.name, Items(g.values))
  {
    EncodeItemsRoundTrip(g.values);
  }

  lemma {:induction false} SplitAtFirstAfter(c: char, a: string, b: string)
    requires c !in a
    ensures SplitAtFirst(c, a + [c] + b) == (a, b)
  {
    var s := a + [c] + b;
    if a == [] {
      assert s[1..] == b;
    } else {
      assert s[1..] == a[1..] + [c] + b;
      SplitAtFirstAfter(c, a[1..], b);
      assert a == [a[0]] + a[1..];
    }
  }

  /** Decoding an encoding gives back every group, in order, with its
      surviving items. */
  lemma DecodeEncode(groups: seq<Group>)
    requires forall k :: 0 <= k < |groups| ==> Decodable(groups[k])
    ensures DecodeGroups(EncodeGroups(groups)) == Canonical(groups)
  {
    if groups != [] {
      var segs := Segments(groups);
      assert AllGroupsAvoid(';', groups);
      SegmentStructure(groups);
      var dec := DecodeGroups(EncodeGroups(groups));
      assert |dec| == |groups|;
      forall i | 0 <= i < |groups| ensures dec[i] == Canonical(groups)[i] {
        DecodeSegmentOfSegment(groups[i]);
      }
    }
  }
}
