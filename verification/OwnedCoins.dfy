/** The coins of each owner as a doubly linked list spelled by the entries of one map
    (wallet/ownedcoins.go). */
module OwnedCoins {
  import opened Common

  datatype OutPoint = OutPoint(txId: Hash, index: nat)

  /** The zero out point stands for "none" and is the key of an owner's list head. */
  const ZERO := OutPoint(EMPTY_HASH, 0)

  type Owner = string

  datatype Link = Link(prev: Option<OutPoint>, next: Option<OutPoint>)

  datatype Ownership = Ownership(owner: Owner, op: OutPoint)

  type Links = map<Ownership, Link>

  const NO_LINK := Link(None, None)

  function KeyOf(owner: Owner, op: Option<OutPoint>): Ownership {
    Ownership(owner, if op.None? then ZERO else op.value)
  }

  /** Reading a key that is absent gives an empty link. */
  function Read(links: Links, owner: Owner, op: Option<OutPoint>): Link {
    if KeyOf(owner, op) in links then links[KeyOf(owner, op)] else NO_LINK
  }

  // ---------------------------------------------------------------- the list an owner's links spell

  /** The neighbour of position i: another element, or none past either end. */
  function At(xs: seq<OutPoint>, i: int): Option<OutPoint> {
    if 0 <= i < |xs| then Some(xs[i]) else None
  }

  ghost predicate NoDuplicates(xs: seq<OutPoint>) {
    forall i, j :: 0 <= i < j < |xs| ==> xs[i] != xs[j]
  }

  ghost predicate Members(links: Links, owner: Owner, xs: seq<OutPoint>) {
    && NoDuplicates(xs) && ZERO !in xs
    && forall op :: op != ZERO ==> (Ownership(owner, op) in links <==> op in xs)
  }

  /** The link of position i; position -1 is the head, before the first and after the last. */
  ghost predicate Linked(links: Links, owner: Owner, xs: seq<OutPoint>, i: int) {
    Read(links, owner, At(xs, i)) == Link(Before(xs, i), At(xs, i + 1))
  }

  function Before(xs: seq<OutPoint>, i: int): Option<OutPoint> {
    At(xs, if i == -1 then |xs| - 1 else i - 1)
  }

  /** The owner's entries are the links of xs, closed into a ring through the head. */
  ghost predicate Spells(links: Links, owner: Owner, xs: seq<OutPoint>) {
    Members(links, owner, xs) && forall i :: -1 <= i < |xs| ==> Linked(links, owner, xs, i)
  }

  /** The list is the only one the links spell. */
  lemma {:induction false} SpellsFrom(links: Links, owner: Owner, xs: seq<OutPoint>, ys: seq<OutPoint>, i: nat)
    requires Spells(links, owner, xs) && Spells(links, owner, ys)
    requires i <= |xs| && i <= |ys| && xs[..i] == ys[..i]
    requires At(xs, i) == At(ys, i)
    ensures xs == ys
    decreases |xs| - i
  {
    hide Members, Read;
    if i < |xs| {
      assert xs[..i + 1] == xs[..i] + [xs[i]] && ys[..i + 1] == ys[..i] + [ys[i]];
      assert Linked(links, owner, xs, i) && Linked(links, owner, ys, i);
      SpellsFrom(links, owner, xs, ys, i + 1);
    } else {
      assert xs == xs[..i] && ys == ys[..i];
    }
  }

  lemma SpellsUnique(links: Links, owner: Owner, xs: seq<OutPoint>, ys: seq<OutPoint>)
    requires Spells(links, owner, xs) && Spells(links, owner, ys)
    ensures xs == ys
  {
    hide Members, Read;
    assert Linked(links, owner, xs, -1) && Linked(links, owner, ys, -1);
    SpellsFrom(links, owner, xs, ys, 0);
  }

  ghost predicate SameFor(links: Links, links': Links, owner: Owner) {
    && (forall op :: Ownership(owner, op) in links <==> Ownership(owner, op) in links')
    && (forall op :: Ownership(owner, op) in links ==> links'[Ownership(owner, op)] == links[Ownership(owner, op)])
  }

  /** A list stands as long as its owner's entries do. */
  lemma SpellsSame(links: Links, links': Links, owner: Owner, xs: seq<OutPoint>)
    requires Spells(links, owner, xs) && SameFor(links, links', owner)
    ensures Spells(links', owner, xs)
  {
    forall i | -1 <= i < |xs|
      ensures Linked(links', owner, xs, i)
    {
      assert Linked(links, owner, xs, i);
    }
  }

  /** Within a list, positions and out points determine each other. */
  lemma SamePlace(xs: seq<OutPoint>, i: int, j: int)
    requires NoDuplicates(xs) && ZERO !in xs && -1 <= i < |xs| && -1 <= j < |xs|
    ensures KeyOf("", At(xs, i)) == KeyOf("", At(xs, j)) <==> i == j
  {
    if i >= 0 { assert xs[i] in xs; }
    if j >= 0 { assert xs[j] in xs; }
  }

  // ---------------------------------------------------------------- append

  function Write(links: Links, owner: Owner, op: Option<OutPoint>, item: Link): Links {
    links[KeyOf(owner, op) := item]
  }

  /** The writes of an append, in order; each read sees the writes before it. */
  function Appended(links: Links, owner: Owner, op: OutPoint): Links {
    var head := Read(links, owner, None);
    var l1 := Write(links, owner, None, Link(Some(op), head.next));
    var prevItem := Read(l1, owner, head.prev);
    var l2 := Write(l1, owner, head.prev, Link(prevItem.prev, Some(op)));
    Write(l2, owner, Some(op), Link(head.prev, None))
  }

  /** An append changes one prev and one next field, and adds one entry. */
  lemma AppendedRead(links: Links, owner: Owner, op: OutPoint, q: Option<OutPoint>)
    requires op != ZERO
    requires var head := Read(links, owner, None); KeyOf(owner, head.prev) != Ownership(owner, op)
    ensures var head := Read(links, owner, None); var r := Read(Appended(links, owner, op), owner, q);
            if KeyOf(owner, q) == Ownership(owner, op) then r == Link(head.prev, None)
            else && r.prev == (if KeyOf(owner, q) == KeyOf(owner, None) then Some(op) else Read(links, owner, q).prev)
                 && r.next == (if KeyOf(owner, q) == KeyOf(owner, head.prev) then Some(op)
                               else Read(links, owner, q).next)
  {
  }

  lemma AppendMembers(links: Links, owner: Owner, xs: seq<OutPoint>, op: OutPoint)
    requires Members(links, owner, xs) && op != ZERO && op !in xs
    requires Read(links, owner, None).prev == At(xs, |xs| - 1)
    ensures Members(Appended(links, owner, op), owner, xs + [op])
    ensures forall other :: other != owner ==> SameFor(links, Appended(links, owner, op), other)
  {
    var links' := Appended(links, owner, op);
    if xs != [] {
      assert xs[|xs| - 1] in xs;
    }
    assert forall q :: Ownership(owner, q) in links' && q != ZERO <==>
        q != ZERO && (Ownership(owner, q) in links || q == op);
  }

  lemma AppendSpells(links: Links, owner: Owner, xs: seq<OutPoint>, op: OutPoint)
    requires Spells(links, owner, xs) && op != ZERO && op !in xs
    ensures Spells(Appended(links, owner, op), owner, xs + [op])
    ensures forall other :: other != owner ==> SameFor(links, Appended(links, owner, op), other)
  {
    hide Read, Appended;
    var links', ys := Appended(links, owner, op), xs + [op];
    assert Linked(links, owner, xs, -1);
    AppendMembers(links, owner, xs, op);
    forall i | -1 <= i < |ys|
      ensures Linked(links', owner, ys, i)
    {
      AppendLinked(links, owner, xs, op, i);
    }
  }

  lemma AppendLinked(links: Links, owner: Owner, xs: seq<OutPoint>, op: OutPoint, i: int)
    requires Spells(links, owner, xs) && op != ZERO && op !in xs && -1 <= i <= |xs|
    ensures Linked(Appended(links, owner, op), owner, xs + [op], i)
  {
    hide Read, Appended;
    var ys := xs + [op];
    assert Linked(links, owner, xs, -1);
    if xs != [] { assert xs[|xs| - 1] in xs; }
    AppendedRead(links, owner, op, At(ys, i));
    if i < |xs| {
      assert Linked(links, owner, xs, i);
      assert At(ys, i) == At(xs, i);
      if i >= 0 { assert xs[i] in xs; }
      SamePlace(xs, i, -1);
      SamePlace(xs, i, |xs| - 1);
    }
  }

  // ---------------------------------------------------------------- remove

  function Unlinked(links: Links, owner: Owner, op: OutPoint): Links
    requires Ownership(owner, op) in links
  {
    var item := links[Ownership(owner, op)];
    var prevItem := Read(links, owner, item.prev);
    var l1 := Write(links, owner, item.prev, Link(prevItem.prev, item.next));
    var nextItem := Read(l1, owner, item.next);
    var l2 := Write(l1, owner, item.next, Link(item.prev, nextItem.next));
    l2 - {Ownership(owner, op)}
  }

  /** A removal changes one prev and one next field, and drops one entry. */
  lemma UnlinkedRead(links: Links, owner: Owner, op: OutPoint, q: Option<OutPoint>)
    requires Ownership(owner, op) in links && KeyOf(owner, q) != Ownership(owner, op)
    ensures var item := links[Ownership(owner, op)]; var r := Read(Unlinked(links, owner, op), owner, q);
            && r.prev == (if KeyOf(owner, q) == KeyOf(owner, item.next) then item.prev else Read(links, owner, q).prev)
            && r.next == (if KeyOf(owner, q) == KeyOf(owner, item.prev) then item.next else Read(links, owner, q).next)
  {
  }

  function Without(xs: seq<OutPoint>, k: nat): seq<OutPoint>
    requires k < |xs|
  {
    xs[..k] + xs[k + 1..]
  }

  lemma UnlinkMembers(links: Links, owner: Owner, xs: seq<OutPoint>, k: nat)
    requires Members(links, owner, xs) && k < |xs|
    requires Ownership(owner, xs[k]) in links
    requires links[Ownership(owner, xs[k])] == Link(At(xs, k - 1), At(xs, k + 1))
    ensures Members(Unlinked(links, owner, xs[k]), owner, Without(xs, k))
    ensures forall other :: other != owner ==> SameFor(links, Unlinked(links, owner, xs[k]), other)
  {
    hide Unlinked, NoDuplicates;
    if k > 0 { assert xs[k - 1] in xs; }
    if k + 1 < |xs| { assert xs[k + 1] in xs; }
    UnlinkedKeys(links, owner, xs[k]);
    WithoutMembers(xs, k);
  }

  lemma UnlinkedKeys(links: Links, owner: Owner, op: OutPoint)
    requires Ownership(owner, op) in links && op != ZERO
    requires var item := links[Ownership(owner, op)];
             && (item.prev.Some? ==> Ownership(owner, item.prev.value) in links)
             && (item.next.Some? ==> Ownership(owner, item.next.value) in links)
    ensures var links' := Unlinked(links, owner, op);
            && (forall q :: q != ZERO ==> (Ownership(owner, q) in links' <==> Ownership(owner, q) in links && q != op))
            && forall other :: other != owner ==> SameFor(links, links', other)
  {
  }

  lemma WithoutMembers(xs: seq<OutPoint>, k: nat)
    requires NoDuplicates(xs) && k < |xs|
    ensures NoDuplicates(Without(xs, k))
    ensures forall q :: q in Without(xs, k) <==> q in xs && q != xs[k]
  {
    var ys := Without(xs, k);
    assert forall i :: 0 <= i < k ==> ys[i] == xs[i];
    assert forall i :: k <= i < |ys| ==> ys[i] == xs[i + 1];
    forall q | q in xs && q != xs[k]
      ensures q in ys
    {
      var i :| 0 <= i < |xs| && xs[i] == q;
      assert ys[if i < k then i else i - 1] == q;
    }
  }

  /** The position a remaining element had before. */
  function Old(k: nat, i: int): int {
    if i < k then i else i + 1
  }

  lemma UnlinkLinked(links: Links, owner: Owner, xs: seq<OutPoint>, k: nat, i: int)
    requires Spells(links, owner, xs) && k < |xs| && -1 <= i < |xs| - 1
    requires Ownership(owner, xs[k]) in links
    ensures Linked(Unlinked(links, owner, xs[k]), owner, Without(xs, k), i)
  {
    hide Read, Unlinked;
    var ys, j := Without(xs, k), Old(k, i);
    assert Linked(links, owner, xs, k) && Linked(links, owner, xs, j);
    Present(links, owner, xs[k]);
    assert At(ys, i) == At(xs, j);
    SamePlace(xs, j, k);
    UnlinkedRead(links, owner, xs[k], At(ys, i));
    SamePlace(xs, j, if k == |xs| - 1 then -1 else k + 1);
    SamePlace(xs, j, k - 1);
  }

  lemma Present(links: Links, owner: Owner, op: OutPoint)
    requires Ownership(owner, op) in links
    ensures Read(links, owner, Some(op)) == links[Ownership(owner, op)]
  {
  }

  lemma UnlinkSpells(links: Links, owner: Owner, xs: seq<OutPoint>, k: nat)
    requires Spells(links, owner, xs) && k < |xs|
    ensures Ownership(owner, xs[k]) in links && Spells(Unlinked(links, owner, xs[k]), owner, Without(xs, k))
    ensures forall other :: other != owner ==> SameFor(links, Unlinked(links, owner, xs[k]), other)
  {
    hide Read, Unlinked;
    assert xs[k] in xs;
    Present(links, owner, xs[k]);
    assert Linked(links, owner, xs, k);
    UnlinkMembers(links, owner, xs, k);
    forall i | -1 <= i < |xs| - 1
      ensures Linked(Unlinked(links, owner, xs[k]), owner, Without(xs, k), i)
    {
      UnlinkLinked(links, owner, xs, k, i);
    }
  }

  // ---------------------------------------------------------------- the map as one list per owner

  ghost predicate HasList(links: Links, owner: Owner) {
    exists xs :: Spells(links, owner, xs)
  }

  ghost function ListOf(links: Links, owner: Owner): (xs: seq<OutPoint>)
    requires HasList(links, owner)
    ensures Spells(links, owner, xs)
  {
    var xs :| Spells(links, owner, xs);
    xs
  }

  lemma IsListOf(links: Links, owner: Owner, xs: seq<OutPoint>)
    requires Spells(links, owner, xs)
    ensures HasList(links, owner) && ListOf(links, owner) == xs
  {
    SpellsUnique(links, owner, xs, ListOf(links, owner));
  }

  lemma SameList(links: Links, links': Links, owner: Owner)
    requires HasList(links, owner) && SameFor(links, links', owner)
    ensures HasList(links', owner) && ListOf(links', owner) == ListOf(links, owner)
  {
    SpellsSame(links, links', owner, ListOf(links, owner));
    IsListOf(links', owner, ListOf(links, owner));
  }

  /** Taking the sentinel out as if it were a coin loses the owner's list, unless it is empty. */
  lemma RemoveZeroExact(links: Links, owner: Owner, xs: seq<OutPoint>)
    requires Spells(links, owner, xs) && Ownership(owner, ZERO) in links
    ensures HasList(Unlinked(links, owner, ZERO), owner) <==> xs == []
  {
    var links' := Unlinked(links, owner, ZERO);
    assert Linked(links, owner, xs, -1);
    assert Read(links', owner, None) == NO_LINK;
    if xs == [] {
      assert Members(links', owner, []);
      assert Spells(links', owner, []);
    } else {
      assert xs[0] in xs && xs[|xs| - 1] in xs;
      assert Ownership(owner, xs[0]) in links';
      NoHeadNoList(links', owner, xs[0]);
    }
  }

  /** Removing an entry of one owner leaves the other owners' lists. */
  lemma OthersKept(links: Links, owner: Owner, op: OutPoint)
    requires Ownership(owner, op) in links && forall o :: HasList(links, o)
    ensures forall other :: other != owner ==>
              HasList(Unlinked(links, owner, op), other) &&
                  ListOf(Unlinked(links, owner, op), other) == ListOf(links, other)
  {
    hide HasList, ListOf, Spells;
    forall other | other != owner
      ensures HasList(Unlinked(links, owner, op), other) &&
                ListOf(Unlinked(links, owner, op), other) == ListOf(links, other)
    {
      assert SameFor(links, Unlinked(links, owner, op), other);
      SameList(links, Unlinked(links, owner, op), other);
    }
  }

  lemma NoHeadNoList(links: Links, owner: Owner, op: OutPoint)
    requires Read(links, owner, None) == NO_LINK && op != ZERO && Ownership(owner, op) in links
    ensures !HasList(links, owner)
  {
    if HasList(links, owner) {
      hide Members;
      EmptyHead(links, owner, ListOf(links, owner), op);
    }
  }

  lemma EmptyHead(links: Links, owner: Owner, xs: seq<OutPoint>, op: OutPoint)
    requires Spells(links, owner, xs) && Read(links, owner, None) == NO_LINK && op != ZERO
    ensures Ownership(owner, op) !in links
  {
    assert Linked(links, owner, xs, -1);
  }

  class Coins {
    var links: Links

    ghost predicate Valid()
      reads this
    {
      forall owner :: HasList(links, owner)
    }

    constructor ()
      ensures Valid() && links == map[] && forall owner :: ListOf(links, owner) == []
    {
      links := map[];
      new;
      forall owner: Owner
        ensures HasList(links, owner) && ListOf(links, owner) == []
      {
        assert Spells(links, owner, []);
        IsListOf(links, owner, []);
      }
    }

    /** Puts an out point at the end of its owner's list, unless it is there already.  The zero out
        point is the head and is never listed. */
    method Append(owner: Owner, op: Option<OutPoint>)
      requires Valid()
      modifies this
      ensures Valid()
      ensures ListOf(links, owner) ==
                if op.None? || op.value == ZERO || op.value in ListOf(old(links), owner) then ListOf(old(links), owner)
                else ListOf(old(links), owner) + [op.value]
      ensures forall other :: other != owner ==> ListOf(links, other) == ListOf(old(links), other)
    {
      hide Spells, SameFor, Read, Write;
      if op.None? {
        return;
      }
      ghost var xs, was := ListOf(links, owner), links;
      MemberKeys(links, owner, xs);
      if Ownership(owner, op.value) in links {
        return;
      }
      if op.value == ZERO {
        AppendZero(links, owner, xs);
      } else {
        AppendSpells(links, owner, xs, op.value);
      }
      var headItem := Read(links, owner, None);
      links := Write(links, owner, None, Link(op, headItem.next));
      var prevItem := Read(links, owner, headItem.prev);
      links := Write(links, owner, headItem.prev, Link(prevItem.prev, op));
      links := Write(links, owner, op, Link(headItem.prev, None));
      ListsAfter(was, links, owner, if op.value == ZERO then xs else xs + [op.value]);
    }

    /** Takes an out point out of its owner's list, keeping the order of the others.  Given the zero out
        point it takes the head out, and a list that is not empty is lost. */
    method Remove(owner: Owner, op: Option<OutPoint>)
      requires Valid()
      modifies this
      ensures op != Some(ZERO) ==> Valid()
      ensures op != Some(ZERO) ==>
                if op.None? || op.value !in ListOf(old(links), owner) then
                  ListOf(links, owner) == ListOf(old(links), owner)
                else exists k :: 0 <= k < |ListOf(old(links), owner)| && ListOf(old(links), owner)[k] == op.value &&
                                 ListOf(links, owner) == Without(ListOf(old(links), owner), k)
      ensures op == Some(ZERO) ==>
                (HasList(links, owner) <==> Ownership(owner, ZERO) !in old(links) || ListOf(old(links), owner) == [])
      ensures forall other :: other != owner ==>
                HasList(links, other) && ListOf(links, other) == ListOf(old(links), other)
    {
      hide Spells, SameFor, Read, Write;
      if op.None? {
        return;
      }
      ghost var xs, was := ListOf(links, owner), links;
      MemberKeys(links, owner, xs);
      if Ownership(owner, op.value) !in links {
        return;
      }
      var item := links[Ownership(owner, op.value)];
      var prevItem := Read(links, owner, item.prev);
      links := Write(links, owner, item.prev, Link(prevItem.prev, item.next));
      var nextItem := Read(links, owner, item.next);
      links := Write(links, owner, item.next, Link(item.prev, nextItem.next));
      links := links - {Ownership(owner, op.value)};
      assert links == Unlinked(was, owner, op.value);
      if op.value == ZERO {
        RemoveZeroExact(was, owner, xs);
        OthersKept(was, owner, ZERO);
      } else {
        ghost var k :| 0 <= k < |xs| && xs[k] == op.value;
        UnlinkSpells(was, owner, xs, k);
        ListsAfter(was, links, owner, Without(xs, k));
      }
    }

    /** Walks the links from the head to the end. */
    method ListCoins(owner: Owner) returns (resultOp: seq<OutPoint>)
      requires Valid()
      ensures resultOp == ListOf(links, owner)
    {
      hide Spells, Read;
      ghost var xs := ListOf(links, owner);
      LinkAt(links, owner, xs, -1);
      resultOp := [];
      var op := Read(links, owner, None).next;
      while op.Some?
        invariant resultOp <= xs && op == At(xs, |resultOp|)
        decreases |xs| - |resultOp|
      {
        LinkAt(links, owner, xs, |resultOp|);
        resultOp := resultOp + [op.value];
        op := Read(links, owner, op).next;
      }
    }
  }

  lemma MemberKeys(links: Links, owner: Owner, xs: seq<OutPoint>)
    requires Spells(links, owner, xs)
    ensures forall op :: op != ZERO ==> (Ownership(owner, op) in links <==> op in xs)
    ensures ZERO !in xs
  {
  }

  lemma LinkAt(links: Links, owner: Owner, xs: seq<OutPoint>, i: int)
    requires Spells(links, owner, xs) && -1 <= i < |xs|
    ensures Read(links, owner, At(xs, i)) == Link(Before(xs, i), At(xs, i + 1))
  {
    assert Linked(links, owner, xs, i);
  }

  lemma AppendZero(links: Links, owner: Owner, xs: seq<OutPoint>)
    requires Spells(links, owner, xs) && Ownership(owner, ZERO) !in links
    ensures Spells(Appended(links, owner, ZERO), owner, xs)
    ensures forall other :: other != owner ==> SameFor(links, Appended(links, owner, ZERO), other)
  {
    assert Linked(links, owner, xs, -1);
    assert xs == [];
    var links' := Appended(links, owner, ZERO);
    assert Members(links', owner, xs);
    assert Linked(links', owner, xs, -1);
  }

  lemma ListsAfter(links: Links, links': Links, owner: Owner, ys: seq<OutPoint>)
    requires forall o :: HasList(links, o)
    requires Spells(links', owner, ys)
    requires forall other :: other != owner ==> SameFor(links, links', other)
    ensures forall o :: HasList(links', o)
    ensures ListOf(links', owner) == ys
    ensures forall other :: other != owner ==> ListOf(links', other) == ListOf(links, other)
  {
    hide Spells, SameFor;
    IsListOf(links', owner, ys);
    forall other: Owner | other != owner
      ensures HasList(links', other) && ListOf(links', other) == ListOf(links, other)
    {
      SameList(links, links', other);
    }
  }
}
