/**
 The doubly linked list of running timers. The links are indices into the array of timer
 contexts; the array length stands for no timer.
 */
module TimerList {
  import opened Basics

  datatype Status = Free | Created | Running

  datatype Mode = SingleShot | Repeated

  datatype TimerContext = TimerContext(
    counterInit: nat, countLeft: nat, timerIdStatus: Status, mode: Mode, previousId: nat, nextId: nat)

  type Contexts = seq<TimerContext>

  /** From `first` on the links visit the timers of `order`, each once, and end there; all back links are right except
      that of the first timer, which has none. */
  ghost predicate IsList(c: Contexts, first: nat, order: seq<nat>) {
    && (forall i :: 0 <= i < |order| ==> order[i] < |c|)
    && Distinct(order)
    && first == (if order == [] then |c| else order[0])
    && (forall i :: 0 <= i < |order| ==> c[order[i]].nextId == Successor(c, order, i))
    && (forall i :: 0 < i < |order| ==> c[order[i]].previousId == order[i - 1])
  }

  function Successor(c: Contexts, order: seq<nat>, i: nat): nat
    requires i < |order|
  {
    if i + 1 < |order| then order[i + 1] else |c|
  }

  function Inserted(order: seq<nat>, p: nat, id: nat): (r: seq<nat>)
    requires p <= |order|
    ensures |r| == |order| + 1
  {
    order[..p] + [id] + order[p..]
  }

  function Removed(order: seq<nat>, p: nat): (r: seq<nat>)
    requires p < |order|
    ensures |r| == |order| - 1
  {
    order[..p] + order[p + 1..]
  }

  // ---- what linking and unlinking do to the contexts ----

  function LinkedAfter(c: Contexts, id: nat, ref: nat): (r: Contexts)
    requires id < |c| && ref < |c|
    ensures |r| == |c|
  {
    var nextId := c[ref].nextId;
    var c1 := if nextId < |c| then c[nextId := c[nextId].(previousId := id)] else c;
    var c2 := c1[id := c1[id].(nextId := nextId, previousId := ref)];
    c2[ref := c2[ref].(nextId := id)]
  }

  function LinkedBefore(c: Contexts, id: nat, ref: nat): (r: Contexts)
    requires id < |c| && ref < |c|
    ensures |r| == |c|
  {
    var c1 := c[id := c[id].(nextId := ref)];
    c1[ref := c1[ref].(previousId := id)]
  }

  function UnlinkedInside(c: Contexts, id: nat): (r: Contexts)
    requires id < |c| && c[id].previousId < |c|
    ensures |r| == |c|
  {
    var previousId, nextId := c[id].previousId, c[id].nextId;
    var c1 := c[previousId := c[previousId].(nextId := nextId)];
    if nextId < |c| then c1[nextId := c1[nextId].(previousId := previousId)] else c1
  }

  /** Only links differ. */
  ghost predicate OnlyLinksDiffer(c: Contexts, c': Contexts) {
    |c'| == |c| && forall i :: 0 <= i < |c| ==> c'[i] == c[i].(previousId := c'[i].previousId, nextId := c'[i].nextId)
  }

  lemma InsertedKeepsDistinct(order: seq<nat>, p: nat, id: nat)
    requires p <= |order| && Distinct(order) && id !in order
    ensures Distinct(Inserted(order, p, id))
  {
    var r := Inserted(order, p, id);
    forall i, j | 0 <= i < j < |r| ensures r[i] != r[j] {
      assert i < p ==> r[i] == order[i];
      assert i > p ==> r[i] == order[i - 1];
      assert j < p ==> r[j] == order[j];
      assert j > p ==> r[j] == order[j - 1];
    }
  }

  lemma RemovedKeepsDistinct(order: seq<nat>, p: nat)
    requires p < |order| && Distinct(order)
    ensures Distinct(Removed(order, p))
  {
    var r := Removed(order, p);
    forall i, j | 0 <= i < j < |r| ensures r[i] != r[j] {
      assert r[i] == order[if i < p then i else i + 1];
      assert r[j] == order[if j < p then j else j + 1];
    }
  }

  lemma InsertedAt(order: seq<nat>, p: nat, id: nat, i: nat)
    requires p <= |order| && i <= |order|
    ensures Inserted(order, p, id)[i] == if i < p then order[i] else if i == p then id else order[i - 1]
  {
  }

  lemma RemovedAt(order: seq<nat>, p: nat, i: nat)
    requires p < |order| && i + 1 < |order|
    ensures Removed(order, p)[i] == order[if i < p then i else i + 1]
  {
  }

  /** The links of a list, spelt out at one position. */
  lemma ListAt(c: Contexts, first: nat, order: seq<nat>, i: nat)
    requires IsList(c, first, order) && i < |order|
    ensures Distinct(order) && first == order[0]
    ensures order[i] < |c| && c[order[i]].nextId == Successor(c, order, i)
    ensures i > 0 ==> c[order[i]].previousId == order[i - 1]
    ensures forall j :: 0 <= j < |order| && order[j] == order[i] ==> j == i
  {
  }

  lemma FormsList(c: Contexts, first: nat, order: seq<nat>)
    requires Distinct(order) && first == (if order == [] then |c| else order[0])
    requires forall i :: 0 <= i < |order| ==> order[i] < |c| && c[order[i]].nextId == Successor(c, order, i)
    requires forall i :: 0 < i < |order| ==> c[order[i]].previousId == order[i - 1]
    ensures IsList(c, first, order)
  {
  }

  lemma LinkedAfterLinks(c: Contexts, id: nat, ref: nat)
    requires id < |c| && ref < |c| && id != ref && c[ref].nextId != id && c[ref].nextId != ref
    ensures var c' := LinkedAfter(c, id, ref);
            && OnlyLinksDiffer(c, c')
            && c'[id].nextId == c[ref].nextId && c'[id].previousId == ref && c'[ref].nextId == id
            && (c[ref].nextId < |c| ==> c'[c[ref].nextId].previousId == id)
            && (forall x :: 0 <= x < |c| && x != ref && x != id ==> c'[x].nextId == c[x].nextId)
            && (forall x :: 0 <= x < |c| && x != c[ref].nextId && x != id ==> c'[x].previousId == c[x].previousId)
  {
  }

  /** Linking a timer after the `p - 1`-th one puts it at position `p`. */
  lemma LinkAfterInserts(c: Contexts, first: nat, order: seq<nat>, p: nat, id: nat)
    requires IsList(c, first, order) && 0 < p <= |order| && id < |c| && id !in order
    ensures IsList(LinkedAfter(c, id, order[p - 1]), first, Inserted(order, p, id))
    ensures OnlyLinksDiffer(c, LinkedAfter(c, id, order[p - 1]))
  {
    hide Distinct, IsList, Inserted, LinkedAfter, OnlyLinksDiffer;
    ListAt(c, first, order, p - 1);
    if p < |order| { ListAt(c, first, order, p); }
    var r, ref := Inserted(order, p, id), order[p - 1];
    var c', next := LinkedAfter(c, id, ref), c[ref].nextId;
    LinkedAfterLinks(c, id, ref);
    forall i | 0 <= i < |r|
      ensures r[i] < |c| && c'[r[i]].nextId == Successor(c', r, i)
      ensures i > 0 ==> c'[r[i]].previousId == r[i - 1]
    {
      InsertedAt(order, p, id, i);
      if i > 0 { InsertedAt(order, p, id, i - 1); }
      if i + 1 < |r| { InsertedAt(order, p, id, i + 1); }
      if i < p { ListAt(c, first, order, i); }
      if i > p { ListAt(c, first, order, i - 1); }
    }
    InsertedAt(order, p, id, 0);
    InsertedKeepsDistinct(order, p, id);
    FormsList(c', first, r);
  }

  /** Linking a timer before the first one makes it the first. */
  lemma LinkBeforeInserts(c: Contexts, first: nat, order: seq<nat>, id: nat)
    requires IsList(c, first, order) && order != [] && id < |c| && id !in order
    ensures IsList(LinkedBefore(c, id, order[0]), id, Inserted(order, 0, id))
    ensures OnlyLinksDiffer(c, LinkedBefore(c, id, order[0]))
  {
    hide Distinct, IsList, Inserted;
    ListAt(c, first, order, 0);
    var r, c' := Inserted(order, 0, id), LinkedBefore(c, id, order[0]);
    forall i | 0 <= i < |r|
      ensures r[i] < |c| && c'[r[i]].nextId == Successor(c', r, i)
      ensures i > 0 ==> c'[r[i]].previousId == r[i - 1]
    {
      InsertedAt(order, 0, id, i);
      if i > 0 { InsertedAt(order, 0, id, i - 1); ListAt(c, first, order, i - 1); }
      if i + 1 < |r| { InsertedAt(order, 0, id, i + 1); }
    }
    InsertedAt(order, 0, id, 0);
    InsertedKeepsDistinct(order, 0, id);
    FormsList(c', id, r);
  }

  lemma EmptyList(c: Contexts, first: nat, order: seq<nat>)
    requires IsList(c, first, order)
    ensures first <= |c| && (first == |c| <==> order == [])
  {
  }

  /** The first timer of an empty list. */
  lemma SingleInserted(c: Contexts, id: nat)
    requires id < |c| && c[id].nextId == |c|
    ensures IsList(c, id, Inserted([], 0, id))
  {
  }

  /** Dropping the first timer needs no link to change. */
  lemma DropFirst(c: Contexts, first: nat, order: seq<nat>)
    requires IsList(c, first, order) && order != []
    ensures IsList(c, c[first].nextId, Removed(order, 0))
  {
    hide Distinct, IsList, Removed;
    ListAt(c, first, order, 0);
    var r := Removed(order, 0);
    forall i | 0 <= i < |r|
      ensures r[i] < |c| && c[r[i]].nextId == Successor(c, r, i)
      ensures i > 0 ==> c[r[i]].previousId == r[i - 1]
    {
      RemovedAt(order, 0, i);
      if i > 0 { RemovedAt(order, 0, i - 1); }
      if i + 1 < |r| { RemovedAt(order, 0, i + 1); }
      ListAt(c, first, order, i + 1);
    }
    if r != [] { RemovedAt(order, 0, 0); }
    RemovedKeepsDistinct(order, 0);
    FormsList(c, c[first].nextId, r);
  }

  lemma UnlinkedInsideLinks(c: Contexts, id: nat)
    requires id < |c| && c[id].previousId < |c| && c[id].previousId != id && c[id].nextId != c[id].previousId
    ensures var c' := UnlinkedInside(c, id);
            && OnlyLinksDiffer(c, c')
            && c'[c[id].previousId].nextId == c[id].nextId
            && (c[id].nextId < |c| ==> c'[c[id].nextId].previousId == c[id].previousId)
            && (forall x :: 0 <= x < |c| && x != c[id].previousId ==> c'[x].nextId == c[x].nextId)
            && (forall x :: 0 <= x < |c| && x != c[id].nextId ==> c'[x].previousId == c[x].previousId)
  {
  }

  /** Unlinking the `p`-th timer takes it out of the list. */
  lemma UnlinkRemoves(c: Contexts, first: nat, order: seq<nat>, p: nat)
    requires IsList(c, first, order) && 0 < p < |order|
    ensures order[p] < |c| && c[order[p]].previousId < |c|
    ensures IsList(UnlinkedInside(c, order[p]), first, Removed(order, p))
    ensures OnlyLinksDiffer(c, UnlinkedInside(c, order[p]))
  {
    hide Distinct, IsList, Removed, UnlinkedInside, OnlyLinksDiffer;
    ListAt(c, first, order, p);
    ListAt(c, first, order, p - 1);
    if p + 1 < |order| { ListAt(c, first, order, p + 1); }
    var r, c' := Removed(order, p), UnlinkedInside(c, order[p]);
    UnlinkedInsideLinks(c, order[p]);
    forall i | 0 <= i < |r|
      ensures r[i] < |c| && c'[r[i]].nextId == Successor(c', r, i)
      ensures i > 0 ==> c'[r[i]].previousId == r[i - 1]
    {
      RemovedAt(order, p, i);
      if i > 0 { RemovedAt(order, p, i - 1); }
      if i + 1 < |r| { RemovedAt(order, p, i + 1); }
      ListAt(c, first, order, if i < p then i else i + 1);
    }
    RemovedAt(order, p, 0);
    RemovedKeepsDistinct(order, p);
    FormsList(c', first, r);
  }

  /** A list depends on the links only. */
  lemma ListKept(c: Contexts, c': Contexts, first: nat, order: seq<nat>)
    requires IsList(c, first, order) && |c'| == |c|
    requires forall i :: 0 <= i < |c| && i in order ==>
               c'[i].nextId == c[i].nextId && c'[i].previousId == c[i].previousId
    ensures IsList(c', first, order)
  {
  }

  lemma MembersInserted(order: seq<nat>, p: nat, id: nat)
    requires p <= |order|
    ensures forall x :: x in Inserted(order, p, id) <==> x == id || x in order
  {
    forall x ensures x in Inserted(order, p, id) <==> x == id || x in order {
      if x in order {
        var i :| 0 <= i < |order| && order[i] == x;
        assert Inserted(order, p, id)[if i < p then i else i + 1] == x;
      }
      assert Inserted(order, p, id)[p] == id;
    }
  }

  lemma MembersRemoved(order: seq<nat>, p: nat)
    requires p < |order| && Distinct(order)
    ensures forall x :: x in Removed(order, p) <==> x != order[p] && x in order
  {
    forall x ensures x in Removed(order, p) <==> x != order[p] && x in order {
      if x in order && x != order[p] {
        var i :| 0 <= i < |order| && order[i] == x;
        assert Removed(order, p)[if i < p then i else i - 1] == x;
      }
      if x in Removed(order, p) {
        var i :| 0 <= i < |order| - 1 && Removed(order, p)[i] == x;
        assert x == order[if i < p then i else i + 1];
      }
    }
  }
}
