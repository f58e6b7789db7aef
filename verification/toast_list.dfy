/** The toast lists of the demo page: one ordered list of toasts per screen
    position, with enqueue, removal by id (the body of a toast's removal
    timer) and clear-all. */
module ToastList {
  import opened Toasts

  /** The state `toastList`: a list of toasts for each position. */
  type Lists = map<Position, seq<Toast>>

  // ---------------------------------------------------------------------
  // Invariant of the lists
  // ---------------------------------------------------------------------

  /** Every position has a list. */
  ghost predicate Total(m: Lists) {
    forall p: Position :: p in m
  }

  /** Every toast sits in the list of its own position. */
  ghost predicate WellPlaced(m: Lists) {
    forall p, t | p in m && t in m[p] :: t.position == p
  }

  /** No two entries of a list share an id. */
  ghost predicate DistinctIds(s: seq<Toast>) {
    forall i, j | 0 <= i < j < |s| :: s[i].id != s[j].id
  }

  /** The ids carried by the toasts of one list. */
  ghost function IdsOf(s: seq<Toast>): set<Id> {
    set t | t in s :: t.id
  }

  /** No id occurs twice, within a list or across two lists. */
  ghost predicate UniqueIds(m: Lists) {
    && (forall p | p in m :: DistinctIds(m[p]))
    && (forall p, q | p in m && q in m && p != q :: IdsOf(m[p]) !! IdsOf(m[q]))
  }

  /** The ids of all toasts currently shown. */
  ghost function Ids(m: Lists): set<Id> {
    set p, t | p in m && t in m[p] :: t.id
  }

  ghost predicate Inv(m: Lists) {
    Total(m) && WellPlaced(m) && UniqueIds(m)
  }

  // ---------------------------------------------------------------------
  // The operations on the lists
  // ---------------------------------------------------------------------

  /** The initial state, which clear-all also restores: every position
      mapped to an empty list. */
  function Empty(): (m: Lists)
    ensures forall p | p in m :: m[p] == []
  {
    map[BottomRight := [], BottomLeft := [], TopRight := [], TopLeft := [], TopCenter := []]
  }

  /** The initial state has a list for each of the five positions, satisfies
      the invariant and shows no toast. */
  lemma EmptyInv()
    ensures Inv(Empty())
    ensures Ids(Empty()) == {}
  {
    var m := Empty();
    forall p: Position ensures p in m {
      match p
      case BottomRight =>
      case BottomLeft =>
      case TopRight =>
      case TopLeft =>
      case TopCenter =>
    }
  }

  /** The lists after `t` is pushed onto the tail of its position's list. */
  function Append(m: Lists, t: Toast): (r: Lists)
    requires t.position in m
    ensures r.Keys == m.Keys
    ensures r[t.position] == m[t.position] + [t]
    ensures forall p | p in m && p != t.position :: r[p] == m[p]
  {
    m[t.position := m[t.position] + [t]]
  }

  /** `s` without the entries whose id is `id`: the filter run by a toast's
      removal timer. */
  function Without(s: seq<Toast>, id: Id): (r: seq<Toast>)
    ensures |r| <= |s|
    ensures forall t :: t in r <==> t in s && t.id != id
  {
    if s == [] then []
    else if s[0].id == id then Without(s[1..], id)
    else [s[0]] + Without(s[1..], id)
  }

  /** The lists after the entries with id `id` are dropped from `pos`'s list. */
  function Removed(m: Lists, pos: Position, id: Id): (r: Lists)
    requires pos in m
    ensures r.Keys == m.Keys
    ensures r[pos] == Without(m[pos], id)
    ensures forall p | p in m && p != pos :: r[p] == m[p]
  {
    m[pos := Without(m[pos], id)]
  }

  // ---------------------------------------------------------------------
  // Properties of the removal filter
  // ---------------------------------------------------------------------

  /** Filtering a concatenation filters each part: the entries kept stay in
      their original relative order. */
  lemma {:induction false} WithoutAppend(a: seq<Toast>, b: seq<Toast>, id: Id)
    ensures Without(a + b, id) == Without(a, id) + Without(b, id)
  {
    if a == [] {
      assert a + b == b;
    } else {
      assert (a + b)[1..] == a[1..] + b;
      WithoutAppend(a[1..], b, id);
    }
  }

  /** Filtering a one-element list keeps the entry exactly when its id
      differs; with WithoutAppend this fixes the result entry by entry. */
  lemma WithoutSingle(t: Toast, id: Id)
    ensures Without([t], id) == if t.id == id then [] else [t]
  {
    assert [t][1..] == [];
  }

  /** The filter drops every entry with the id and keeps every other entry
      as many times as it occurred. */
  lemma {:induction false} WithoutCounts(s: seq<Toast>, id: Id)
    ensures forall t :: multiset(Without(s, id))[t] == if t.id == id then 0 else multiset(s)[t]
  {
    if s != [] {
      WithoutCounts(s[1..], id);
      assert s == [s[0]] + s[1..];
    }
  }

  /** Removing an id that is not in the list leaves the list unchanged. */
  lemma {:induction false} WithoutAbsent(s: seq<Toast>, id: Id)
    requires id !in IdsOf(s)
    ensures Without(s, id) == s
  {
    if s != [] {
      assert s[0] in s;
      assert IdsOf(s[1..]) <= IdsOf(s) by {
        forall t | t in s[1..] ensures t in s { }
      }
      WithoutAbsent(s[1..], id);
      assert s == [s[0]] + s[1..];
    }
  }

  /** The filter is idempotent. */
  lemma WithoutIdempotent(s: seq<Toast>, id: Id)
    ensures Without(Without(s, id), id) == Without(s, id)
  {
    WithoutAbsent(Without(s, id), id);
  }

  /** Two filters on different ids may run in either order. */
  lemma {:induction false} WithoutCommutes(s: seq<Toast>, a: Id, b: Id)
    ensures Without(Without(s, a), b) == Without(Without(s, b), a)
  {
    if s != [] {
      WithoutCommutes(s[1..], a, b);
      var h := [s[0]];
      assert s == h + s[1..];
      WithoutAppend(h, s[1..], a);
      WithoutAppend(h, s[1..], b);
      WithoutSingle(s[0], a);
      WithoutSingle(s[0], b);
      WithoutAppend(Without(h, a), Without(s[1..], a), b);
      WithoutAppend(Without(h, b), Without(s[1..], b), a);
    }
  }

  /** Dropping entries keeps ids distinct. */
  lemma {:induction false} WithoutKeepsDistinct(s: seq<Toast>, id: Id)
    requires DistinctIds(s)
    ensures DistinctIds(Without(s, id))
  {
    if s != [] {
      WithoutKeepsDistinct(s[1..], id);
      var rest := Without(s[1..], id);
      assert s[0].id !in IdsOf(s[1..]) by {
        forall t | t in s[1..] ensures t.id != s[0].id {
          var k :| 0 <= k < |s[1..]| && s[1..][k] == t;
          assert s[k + 1] == t;
        }
      }
      if s[0].id != id {
        var r := [s[0]] + rest;
        assert Without(s, id) == r;
        forall i, j | 0 <= i < j < |r| ensures r[i].id != r[j].id {
          if i == 0 {
            assert r[j] in rest;
          } else {
            assert r[i] == rest[i - 1] && r[j] == rest[j - 1];
          }
        }
      }
    }
  }

  // ---------------------------------------------------------------------
  // Properties of the operations on the lists
  // ---------------------------------------------------------------------

  lemma IdsOfAppend(s: seq<Toast>, t: Toast)
    ensures IdsOf(s + [t]) == IdsOf(s) + {t.id}
  {
    assert forall u :: u in s + [t] <==> u in s || u == t;
  }

  lemma IdsOfIn(m: Lists, p: Position)
    requires p in m
    ensures IdsOf(m[p]) <= Ids(m)
  {
  }

  /** Appending a toast with a fresh id under its own position keeps every
      toast under its position and all ids unique, and adds just that id. */
  lemma AppendKeepsInv(m: Lists, t: Toast)
    requires Inv(m)
    requires t.id !in Ids(m)
    ensures Inv(Append(m, t))
    ensures Ids(Append(m, t)) == Ids(m) + {t.id}
  {
    var r := Append(m, t);
    var pos := t.position;
    IdsOfAppend(m[pos], t);
    forall p: Position, u: Toast | p in r && u in r[p] ensures u.position == p {
      if p == pos && u !in m[pos] {
        assert u == t;
      }
    }
    assert DistinctIds(r[pos]) by {
      var s := m[pos];
      assert t.id !in IdsOf(s) by { IdsOfIn(m, pos); }
      forall i, j | 0 <= i < j < |r[pos]| ensures r[pos][i].id != r[pos][j].id {
        if j == |s| {
          assert r[pos][i] == s[i] && s[i] in s;
        } else {
          assert r[pos][i] == s[i] && r[pos][j] == s[j];
        }
      }
    }
    forall p, q | p in r && q in r && p != q ensures IdsOf(r[p]) !! IdsOf(r[q]) {
      if p == pos {
        IdsOfIn(m, q);
      } else if q == pos {
        IdsOfIn(m, p);
      }
    }
    forall x | x in Ids(r) ensures x in Ids(m) + {t.id} {
      var p: Position, u: Toast :| p in r && u in r[p] && u.id == x;
      if p == pos && u !in m[pos] {
        assert u == t;
      }
    }
    forall x | x in Ids(m) + {t.id} ensures x in Ids(r) {
      if x == t.id {
        assert t in r[pos];
      } else {
        var p: Position, u: Toast :| p in m && u in m[p] && u.id == x;
        assert u in r[p];
      }
    }
  }

  /** Removal keeps every toast under its position and all ids unique, and
      drops nothing but the removed id. */
  lemma RemovedKeepsInv(m: Lists, pos: Position, id: Id)
    requires Inv(m)
    ensures Inv(Removed(m, pos, id))
    ensures Ids(Removed(m, pos, id)) <= Ids(m)
    ensures Ids(m) - {id} <= Ids(Removed(m, pos, id))
  {
    var r := Removed(m, pos, id);
    WithoutKeepsDistinct(m[pos], id);
    forall p, q | p in r && q in r && p != q ensures IdsOf(r[p]) !! IdsOf(r[q]) {
      assert IdsOf(r[p]) <= IdsOf(m[p]) && IdsOf(r[q]) <= IdsOf(m[q]);
    }
    forall x | x in Ids(m) - {id} ensures x in Ids(r) {
      var p: Position, u: Toast :| p in m && u in m[p] && u.id == x;
      assert u in r[p];
    }
  }

  /** The removal armed by a toast undoes its enqueue: filtering the fresh
      id out of its position gives back the lists as they were before. */
  lemma RemoveUndoesAppend(m: Lists, t: Toast)
    requires Inv(m)
    requires t.id !in Ids(m)
    ensures Removed(Append(m, t), t.position, t.id) == m
  {
    var s := m[t.position];
    IdsOfIn(m, t.position);
    WithoutAppend(s, [t], t.id);
    WithoutAbsent(s, t.id);
    WithoutSingle(t, t.id);
    assert s + [] == s;
  }

  /** A removal whose toast is no longer shown (already removed, or swept
      away by clear-all) leaves the lists unchanged. */
  lemma RemoveAbsentIsNoOp(m: Lists, pos: Position, id: Id)
    requires pos in m
    requires id !in Ids(m)
    ensures Removed(m, pos, id) == m
  {
    IdsOfIn(m, pos);
    WithoutAbsent(m[pos], id);
  }

  /** Firing the same removal twice has the effect of firing it once. */
  lemma RemoveIdempotent(m: Lists, pos: Position, id: Id)
    requires pos in m
    ensures Removed(Removed(m, pos, id), pos, id) == Removed(m, pos, id)
  {
    WithoutIdempotent(m[pos], id);
  }

  /** Two removals may fire in either order with the same outcome. */
  lemma RemovalsCommute(m: Lists, p1: Position, id1: Id, p2: Position, id2: Id)
    requires p1 in m && p2 in m
    ensures Removed(Removed(m, p1, id1), p2, id2) == Removed(Removed(m, p2, id2), p1, id1)
  {
    if p1 == p2 {
      WithoutCommutes(m[p1], id1, id2);
    }
  }

  // ---------------------------------------------------------------------
  // The store
  // ---------------------------------------------------------------------

  /** The page's toast state. `issued` records every id handed out so far,
      so that no id is ever reused within a session. */
  class ToastStore {
    var lists: Lists
    ghost var issued: set<Id>

    ghost predicate Valid()
      reads this
    {
      Inv(lists) && Ids(lists) <= issued
    }

    /** Every position starts with an empty list. */
    constructor ()
      ensures Valid()
      ensures lists == Empty() && issued == {}
    {
      lists := Empty();
      issued := {};
      EmptyInv();
    }

    /** addNewToast: builds a toast from the form and the pressed button's
        type, tags it with the fresh id `id`, appends it to the tail of the
        selected position's list, and arms its removal when it has a
        duration. */
    method Enqueue(form: FormData, kind: ToastType, id: Id) returns (t: Toast, timer: Option<Removal>)
      requires Valid()
      requires id !in issued
      modifies this
      ensures Valid()
      ensures t == NewToast(form, kind, id)
      ensures timer == ScheduledRemoval(t)
      ensures lists == Append(old(lists), t)
      ensures Ids(lists) == old(Ids(lists)) + {id}
      ensures issued == old(issued) + {id}
    {
      t := NewToast(form, kind, id);
      AppendKeepsInv(lists, t);
      lists := Append(lists, t);
      issued := issued + {id};
      timer := ScheduledRemoval(t);
    }

    /** The body of a removal timer: filters `id` out of `pos`'s list. */
    method Remove(pos: Position, id: Id)
      requires Valid()
      modifies this
      ensures Valid()
      ensures lists == Removed(old(lists), pos, id)
      ensures id !in old(Ids(lists)) ==> lists == old(lists)
      ensures old(Ids(lists)) - {id} <= Ids(lists) <= old(Ids(lists))
      ensures issued == old(issued)
    {
      RemovedKeepsInv(lists, pos, id);
      if id !in Ids(lists) {
        RemoveAbsentIsNoOp(lists, pos, id);
      }
      lists := Removed(lists, pos, id);
    }

    /** The clear-all button: every position back to an empty list. */
    method ClearAll()
      requires Valid()
      modifies this
      ensures Valid()
      ensures lists == Empty()
      ensures issued == old(issued)
    {
      lists := Empty();
      EmptyInv();
    }
  }

  /** The auto-dismiss example: a warning toast with no message, auto-dismiss
      checked and two seconds entered, enqueued at the top left and then
      removed by its timer; a timer firing after clear-all changes nothing. */
  method AutoDismissScenario() {
    var store := new ToastStore();
    var form := FormData("", true, Some(2), TopLeft);
    var t, timer := store.Enqueue(form, Warn, "e1");
    assert t.message == InvalidMessage && t.duration == Some(2);
    assert store.lists[TopLeft] == [t];
    assert timer == Some(Removal(TopLeft, "e1", 2));
    store.Remove(timer.value.position, timer.value.id);
    WithoutSingle(t, "e1");
    assert store.lists[TopLeft] == [];

    var u, late := store.Enqueue(FormData("saved", true, None, BottomLeft), Success, "e2");
    assert u.message == "saved" && late == Some(Removal(BottomLeft, "e2", 1));
    store.ClearAll();
    store.Remove(late.value.position, late.value.id);
    assert store.lists == Empty();
  }
}
