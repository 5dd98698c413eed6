/**
  The adjacency of a specialized vertex: for each edge label, the list of
  edges stored under it, once for outgoing and once for incoming edges.
  Edges are named by their ids. This module holds the pure reads of those
  maps: the lists themselves, the removal of an edge id from one label's
  list, and the edge iteration `edges(direction, labels...)`, both as the
  vertex class writes it and as it is evidently meant.
*/
module Adjacency {
  import opened Wrappers
  import opened JavaLang

  /** Label to the edges stored under it, in insertion order. */
  type EdgesByLabel = map<JString, seq<Long>>

  datatype Direction = OUT | IN | BOTH

  /** The list stored under a label; a label never stored has no edges. */
  function ListOf(m: EdgesByLabel, edgeLabel: JString): seq<Long> {
    if edgeLabel in m then m[edgeLabel] else []
  }

  /**
    The list with every occurrence of x taken out; the other entries keep
    their multiplicity (and, by RemoveAllAppend, their order).
  */
  function RemoveAll(s: seq<Long>, x: Long): (r: seq<Long>)
    ensures x !in r
    ensures forall y :: y != x ==> (y in r <==> y in s)
    ensures multiset(r) == multiset(s)[x := 0]
    ensures |r| <= |s|
    ensures x !in s ==> r == s
  {
    if |s| == 0 then []
    else
      assert s == [s[0]] + s[1..];
      if s[0] == x then RemoveAll(s[1..], x)
      else [s[0]] + RemoveAll(s[1..], x)
  }

  /** Removal works piecewise: the entries of each part stay in place, in order. */
  lemma {:induction false} RemoveAllAppend(a: seq<Long>, b: seq<Long>, x: Long)
    ensures RemoveAll(a + b, x) == RemoveAll(a, x) + RemoveAll(b, x)
  {
    if |a| > 0 {
      assert (a + b)[0] == a[0];
      assert (a + b)[1..] == a[1..] + b;
      RemoveAllAppend(a[1..], b, x);
    } else {
      assert a + b == b;
    }
  }

  /**
    The adjacency once the edge with this id is detached from the list of
    its label: no entry of that list is the id any more, every other entry
    and every other label's list is unchanged.
  */
  function Detach(m: EdgesByLabel, edgeLabel: JString, id: Long): (r: EdgesByLabel)
    ensures r.Keys == m.Keys
    ensures id !in ListOf(r, edgeLabel)
    ensures forall y :: y != id ==> (y in ListOf(r, edgeLabel) <==> y in ListOf(m, edgeLabel))
    ensures forall l :: l in m && l != edgeLabel ==> r[l] == m[l]
    ensures edgeLabel in m ==> r[edgeLabel] == RemoveAll(m[edgeLabel], id)
  {
    if edgeLabel in m then m[edgeLabel := RemoveAll(m[edgeLabel], id)] else m
  }

  /** Every list of the map, one after the other, in some iteration order of the labels. */
  ghost function Flatten(m: EdgesByLabel): (r: seq<Long>)
    ensures forall x :: x in r <==> exists l :: l in m && x in m[l]
    decreases |m|
  {
    if |m| == 0 then []
    else
      var l :| l in m;
      var rest := m - {l};
      assert forall k :: k in m <==> k == l || k in rest;
      m[l] + Flatten(rest)
  }

  /**
    edges(direction, labels...) as written: with no labels every outgoing
    and then every incoming list, whatever the direction; with labels, the
    outgoing list of each label for OUT or BOTH, the incoming list for IN, and
    a NullPointerException for a label with no list.
  */
  ghost function EdgesAsWritten(outE: EdgesByLabel, inE: EdgesByLabel, dir: Direction, labels: seq<JString>): (r: Result<seq<Long>>)
    ensures r.Err? <==> exists l :: l in labels && l !in ReadSide(outE, inE, dir)
    ensures |labels| == 0 ==> r.Ok?
    ensures |labels| == 0 && r.Ok? ==>
      forall x :: x in r.value <==> (exists l :: l in outE && x in outE[l]) || (exists l :: l in inE && x in inE[l])
    ensures |labels| > 0 && r.Ok? ==>
      forall x :: x in r.value <==> exists l :: l in labels && l in ReadSide(outE, inE, dir) && x in ReadSide(outE, inE, dir)[l]
  {
    if |labels| == 0 then Ok(Flatten(outE) + Flatten(inE))
    else LabelledAsWritten(outE, inE, dir, labels)
  }

  /**
    The map the as-written labelled query reads: the test for OUT or BOTH
    comes first, so BOTH reads the outgoing map too, and only IN reaches
    the incoming one.
  */
  function ReadSide(outE: EdgesByLabel, inE: EdgesByLabel, dir: Direction): EdgesByLabel {
    if dir == IN then inE else outE
  }

  /**
    The labelled branch as written: it throws exactly when some label has
    no list on the side it reads, and otherwise yields exactly the entries
    of the lists of the requested labels on that side.
  */
  function LabelledAsWritten(outE: EdgesByLabel, inE: EdgesByLabel, dir: Direction, labels: seq<JString>): (r: Result<seq<Long>>)
    ensures r.Err? <==> exists l :: l in labels && l !in ReadSide(outE, inE, dir)
    ensures r.Err? ==> r.error == NullPointer
    ensures r.Ok? ==> forall x :: x in r.value <==>
      exists l :: l in labels && l in ReadSide(outE, inE, dir) && x in ReadSide(outE, inE, dir)[l]
  {
    if |labels| == 0 then Ok([])
    else
      var l, side := labels[0], ReadSide(outE, inE, dir);
      assert forall k :: k in labels <==> k == l || k in labels[1..];
      if l !in side then Err(NullPointer)
      else
        match LabelledAsWritten(outE, inE, dir, labels[1..])
        case Err(e) => Err(e)
        case Ok(t) => Ok(side[l] + t)
  }

  /** The lists of one label that the direction asks for. */
  function Selected(outE: EdgesByLabel, inE: EdgesByLabel, dir: Direction, l: JString): seq<Long> {
    (if dir != IN then ListOf(outE, l) else []) + (if dir != OUT then ListOf(inE, l) else [])
  }

  /** An edge id stored under a label the query asks for, on a side the direction asks for. */
  ghost predicate Matches(outE: EdgesByLabel, inE: EdgesByLabel, dir: Direction, labels: seq<JString>, x: Long) {
    exists l :: (|labels| == 0 || l in labels) &&
      ((dir != IN && l in outE && x in outE[l]) || (dir != OUT && l in inE && x in inE[l]))
  }

  function LabelledIntended(outE: EdgesByLabel, inE: EdgesByLabel, dir: Direction, labels: seq<JString>): (r: seq<Long>)
    ensures forall x :: x in r <==> exists l :: l in labels && x in Selected(outE, inE, dir, l)
  {
    if |labels| == 0 then []
    else Selected(outE, inE, dir, labels[0]) + LabelledIntended(outE, inE, dir, labels[1..])
  }

  /**
    edges(direction, labels...) as it is evidently meant: the direction is
    honoured with and without labels, BOTH takes both sides, and a label with
    no list contributes nothing.
  */
  ghost function EdgesIntended(outE: EdgesByLabel, inE: EdgesByLabel, dir: Direction, labels: seq<JString>): (r: seq<Long>)
    ensures forall x :: x in r <==> Matches(outE, inE, dir, labels, x)
  {
    if |labels| == 0 then
      (if dir != IN then Flatten(outE) else []) + (if dir != OUT then Flatten(inE) else [])
    else LabelledIntended(outE, inE, dir, labels)
  }

  /** As written, a query for incoming edges with no labels also yields the outgoing ones. */
  lemma AsWrittenIgnoresDirection()
    ensures EdgesAsWritten(map["sungBy" := [7]], map[], IN, []) == Ok([7])
    ensures EdgesIntended(map["sungBy" := [7]], map[], IN, []) == []
  {
    var m: EdgesByLabel := map["sungBy" := [7]];
    assert Flatten(m) == [7] by {
      assert m - {"sungBy"} == map[];
    }
    assert Flatten(map[]) == [];
  }

  /** As written, BOTH with a label reads only the outgoing list of that label. */
  lemma AsWrittenBothSkipsIncoming()
    ensures EdgesAsWritten(map["sungBy" := []], map["sungBy" := [7]], BOTH, ["sungBy"]) == Ok([])
    ensures EdgesIntended(map["sungBy" := []], map["sungBy" := [7]], BOTH, ["sungBy"]) == [7]
  {
    var o: EdgesByLabel := map["sungBy" := []];
    var i: EdgesByLabel := map["sungBy" := [7]];
    var labels: seq<JString> := ["sungBy"];
    assert labels[1..] == [];
    assert "sungBy" in o && o["sungBy"] == [];
    assert LabelledAsWritten(o, i, BOTH, []) == Ok([]);
    var r := LabelledAsWritten(o, i, BOTH, labels);
    assert r.Ok?;
    assert r.value == [];
    assert r == Ok([]);
  }

  /** As written, asking for a label the vertex has no list for throws. */
  lemma AsWrittenAbsentLabelFails()
    ensures EdgesAsWritten(map[], map[], OUT, ["followedBy"]) == Err(NullPointer)
    ensures EdgesIntended(map[], map[], OUT, ["followedBy"]) == []
  {
  }

  /**
    An edge appended to the list of its label is among the edges the intended
    query yields for that side, with no labels or with that label.
  */
  lemma StoredEdgeIsListed(m: EdgesByLabel, other: EdgesByLabel, edgeLabel: JString, x: Long, labels: seq<JString>)
    requires |labels| == 0 || edgeLabel in labels
    ensures x in EdgesIntended(m[edgeLabel := ListOf(m, edgeLabel) + [x]], other, OUT, labels)
    ensures x in EdgesIntended(other, m[edgeLabel := ListOf(m, edgeLabel) + [x]], IN, labels)
  {
    var n := m[edgeLabel := ListOf(m, edgeLabel) + [x]];
    assert x in n[edgeLabel];
    assert Matches(n, other, OUT, labels, x);
    assert Matches(other, n, IN, labels, x);
  }

  /** Once detached, an edge id is no longer yielded for that label. */
  lemma DetachedEdgeIsNotListed(m: EdgesByLabel, other: EdgesByLabel, edgeLabel: JString, x: Long)
    ensures x !in EdgesIntended(Detach(m, edgeLabel, x), other, OUT, [edgeLabel])
    ensures x !in EdgesIntended(other, Detach(m, edgeLabel, x), IN, [edgeLabel])
  {
  }
}
