/** The to-do entry of the screen and the list operations its state changes are built from. */
module TodoItem {

  datatype Option<T> = None | Some(value: T)

  /** One to-do entry. The source draws `id` from `UUID()`; here it is a natural
      number handed out by the store's counter, so it is never reused. */
  datatype Item = Item(id: nat, text: string, isComplete: bool, isEditing: bool)

  /** An item still left to do. */
  predicate IsActive(it: Item) { !it.isComplete }

  /** An item marked done. */
  predicate IsCompleted(it: Item) { it.isComplete }

  /** The item with its completion flag negated and every other field kept. */
  function Toggled(it: Item): (r: Item)
    ensures r.id == it.id && r.text == it.text && r.isEditing == it.isEditing
    ensures r.isComplete != it.isComplete
  {
    it.(isComplete := !it.isComplete)
  }

  /** No two positions of the list carry the same id. */
  ghost predicate IdsUnique(s: seq<Item>) {
    forall i, j :: 0 <= i < j < |s| ==> s[i].id != s[j].id
  }

  /** Some position of the list carries `id`. */
  predicate HasId(s: seq<Item>, id: nat) {
    exists i :: 0 <= i < |s| && s[i].id == id
  }

  /** `r` is `s` with some positions dropped and the rest kept in order. */
  predicate IsSubsequence(r: seq<Item>, s: seq<Item>)
    decreases |s|
  {
    r == [] || (s != [] && ((r[0] == s[0] && IsSubsequence(r[1..], s[1..])) || IsSubsequence(r, s[1..])))
  }

  lemma {:induction false} SubsequenceReflexive(s: seq<Item>)
    ensures IsSubsequence(s, s)
  {
    if s != [] {
      SubsequenceReflexive(s[1..]);
    }
  }

  /** The items of `s` that satisfy `p`, in their order in `s`: Swift's `filter`. */
  function Filter(s: seq<Item>, p: Item -> bool): (r: seq<Item>)
    ensures |r| <= |s|
    ensures forall x :: x in r <==> x in s && p(x)
    ensures IsSubsequence(r, s)
  {
    if s == [] then []
    else if p(s[0]) then
      var rest := Filter(s[1..], p);
      assert ([s[0]] + rest)[1..] == rest;
      [s[0]] + rest
    else Filter(s[1..], p)
  }

  /** Filtering with a predicate and with its negation splits the list:
      the two filtered lists together have the length of the list. */
  lemma {:induction false} FilterSplit(s: seq<Item>, p: Item -> bool, q: Item -> bool)
    requires forall x :: q(x) == !p(x)
    ensures |Filter(s, p)| + |Filter(s, q)| == |s|
  {
    if s != [] {
      FilterSplit(s[1..], p, q);
    }
  }

  /** Filtering a list with one more item at the end keeps what it kept, then that item if it qualifies. */
  lemma {:induction false} FilterAppend(s: seq<Item>, x: Item, p: Item -> bool)
    ensures Filter(s + [x], p) == Filter(s, p) + (if p(x) then [x] else [])
  {
    if s == [] {
      assert [x][1..] == [];
    } else {
      assert (s + [x])[1..] == s[1..] + [x];
      FilterAppend(s[1..], x, p);
    }
  }

  /** Two predicates that agree on every item filter alike. */
  lemma {:induction false} FilterAgrees(s: seq<Item>, p: Item -> bool, q: Item -> bool)
    requires forall x :: p(x) == q(x)
    ensures Filter(s, p) == Filter(s, q)
  {
    if s != [] {
      FilterAgrees(s[1..], p, q);
    }
  }

  /** A predicate true of every item of the list keeps the whole list. */
  lemma {:induction false} FilterKeepsAll(s: seq<Item>, p: Item -> bool)
    requires forall i :: 0 <= i < |s| ==> p(s[i])
    ensures Filter(s, p) == s
  {
    if s != [] {
      FilterKeepsAll(s[1..], p);
      assert s == [s[0]] + s[1..];
    }
  }

  /** Filtering twice with the same predicate is filtering once. */
  lemma {:induction false} FilterIdempotent(s: seq<Item>, p: Item -> bool)
    ensures Filter(Filter(s, p), p) == Filter(s, p)
  {
    var r := Filter(s, p);
    forall i | 0 <= i < |r| ensures p(r[i]) {
      assert r[i] in r;
    }
    FilterKeepsAll(r, p);
  }

  /** Filtering a list with unique ids gives a list with unique ids, all drawn from the list. */
  lemma {:induction false} FilterKeepsIdsUnique(s: seq<Item>, p: Item -> bool)
    requires IdsUnique(s)
    ensures IdsUnique(Filter(s, p))
  {
    if s != [] {
      var tail := s[1..];
      assert IdsUnique(tail) by {
        forall i, j | 0 <= i < j < |tail| ensures tail[i].id != tail[j].id {
          assert tail[i] == s[i + 1] && tail[j] == s[j + 1];
        }
      }
      FilterKeepsIdsUnique(tail, p);
      if p(s[0]) {
        var rest := Filter(tail, p);
        var r := [s[0]] + rest;
        forall i, j | 0 <= i < j < |r| ensures r[i].id != r[j].id {
          if i == 0 {
            assert r[j] == rest[j - 1] && rest[j - 1] in tail;
            var k :| 0 <= k < |tail| && tail[k] == rest[j - 1];
            assert s[k + 1] == tail[k];
          } else {
            assert r[i] == rest[i - 1] && r[j] == rest[j - 1];
          }
        }
      }
    }
  }

  /** The position of the first item carrying `id`: Swift's `firstIndex(where: { $0.id == id })`. */
  function FindIndex(s: seq<Item>, id: nat): (r: Option<nat>)
    ensures r.Some? ==> r.value < |s| && s[r.value].id == id
    ensures r.Some? ==> forall j :: 0 <= j < r.value ==> s[j].id != id
    ensures r.None? <==> !HasId(s, id)
  {
    if s == [] then None
    else if s[0].id == id then Some(0)
    else match FindIndex(s[1..], id)
      case None =>
        assert forall j :: 1 <= j < |s| ==> s[j] == s[1..][j - 1];
        None
      case Some(k) => Some(k + 1)
  }

  /** In a list with unique ids, the first item carrying `id` is the only one. */
  lemma FindIndexUnique(s: seq<Item>, id: nat, i: nat)
    requires IdsUnique(s)
    requires i < |s| && s[i].id == id
    ensures FindIndex(s, id) == Some(i)
  {
  }

  /** The list without its first item carrying `id`; the whole list when none does. */
  function RemoveFirst(s: seq<Item>, id: nat): (r: seq<Item>)
    ensures |r| == if HasId(s, id) then |s| - 1 else |s|
    ensures IsSubsequence(r, s)
  {
    if s == [] then []
    else if s[0].id == id then
      SubsequenceReflexive(s[1..]);
      s[1..]
    else
      var rest := RemoveFirst(s[1..], id);
      assert HasId(s, id) <==> HasId(s[1..], id) by {
        if HasId(s, id) {
          var i :| 0 <= i < |s| && s[i].id == id;
          assert s[1..][i - 1] == s[i];
        }
        if HasId(s[1..], id) {
          var i :| 0 <= i < |s[1..]| && s[1..][i].id == id;
          assert s[i + 1] == s[1..][i];
        }
      }
      assert ([s[0]] + rest)[1..] == rest;
      [s[0]] + rest
  }

  lemma FindIndexTail(s: seq<Item>, id: nat, i: nat)
    requires FindIndex(s, id) == Some(i) && i > 0
    ensures s[0].id != id && FindIndex(s[1..], id) == Some(i - 1)
  {
  }

  lemma RemoveFirstTail(s: seq<Item>, id: nat)
    requires s != [] && s[0].id != id
    ensures RemoveFirst(s, id) == [s[0]] + RemoveFirst(s[1..], id)
  {
  }

  lemma CutTail(s: seq<Item>, i: nat)
    requires 0 < i < |s|
    ensures s[..i] + s[i + 1..] == [s[0]] + (s[1..][..i - 1] + s[1..][i..])
  {
    assert s[..i] == [s[0]] + s[1..][..i - 1];
    assert s[i + 1..] == s[1..][i..];
  }

  /** Removing the first match is cutting out the position `FindIndex` reports:
      Swift's `remove(at:)` after `firstIndex(where:)`. */
  lemma {:induction false} RemoveFirstAt(s: seq<Item>, id: nat, i: nat)
    requires FindIndex(s, id) == Some(i)
    ensures RemoveFirst(s, id) == s[..i] + s[i + 1..]
  {
    if i == 0 {
      assert s[..0] + s[1..] == s[1..];
    } else {
      FindIndexTail(s, id, i);
      RemoveFirstAt(s[1..], id, i - 1);
      RemoveFirstTail(s, id);
      CutTail(s, i);
    }
  }

  /** An id that no item carries leaves the list as it is. */
  lemma {:induction false} RemoveFirstAbsent(s: seq<Item>, id: nat)
    requires !HasId(s, id)
    ensures RemoveFirst(s, id) == s
  {
    if s != [] {
      RemoveFirstAbsent(s[1..], id);
      assert s == [s[0]] + s[1..];
    }
  }

  /** Cutting position `i` out of a list with unique ids drops exactly the item there. */
  lemma CutExactly(s: seq<Item>, i: nat, x: Item)
    requires IdsUnique(s) && i < |s|
    ensures x in s[..i] + s[i + 1..] <==> x in s && x.id != s[i].id
  {
    var r := s[..i] + s[i + 1..];
    if x in r {
      var k :| 0 <= k < |r| && r[k] == x;
      if k < i {
        assert r[k] == s[k];
      } else {
        assert r[k] == s[k + 1];
      }
    }
    if x in s && x.id != s[i].id {
      var k :| 0 <= k < |s| && s[k] == x;
      if k < i {
        assert r[k] == x;
      } else {
        assert r[k - 1] == x;
      }
    }
  }

  /** Cutting one position out of a list with unique ids keeps the ids unique and adds no item. */
  lemma CutKeepsIdsUnique(s: seq<Item>, i: nat)
    requires IdsUnique(s) && i < |s|
    ensures IdsUnique(s[..i] + s[i + 1..])
    ensures forall x :: x in s[..i] + s[i + 1..] ==> x in s
  {
    var r := s[..i] + s[i + 1..];
    forall k | 0 <= k < |r| ensures r[k] == s[if k < i then k else k + 1] {
    }
    forall a, b | 0 <= a < b < |r| ensures r[a].id != r[b].id {
      assert r[a] == s[if a < i then a else a + 1];
      assert r[b] == s[if b < i then b else b + 1];
    }
  }

  /** In a list with unique ids, removing `id` drops exactly the item carrying it and keeps every other. */
  lemma RemoveFirstExactly(s: seq<Item>, id: nat)
    requires IdsUnique(s)
    ensures forall x :: x in RemoveFirst(s, id) <==> x in s && x.id != id
  {
    match FindIndex(s, id) {
      case None =>
        RemoveFirstAbsent(s, id);
      case Some(i) =>
        RemoveFirstAt(s, id, i);
        forall x ensures x in RemoveFirst(s, id) <==> x in s && x.id != id {
          CutExactly(s, i, x);
        }
    }
  }

  /** Every item with its completion flag negated, in place: the toggle-all loop's result. */
  function FlipAll(s: seq<Item>): (r: seq<Item>)
    ensures |r| == |s|
    ensures forall i :: 0 <= i < |s| ==> r[i] == Toggled(s[i])
  {
    if s == [] then [] else [Toggled(s[0])] + FlipAll(s[1..])
  }

  /** Toggling every item twice restores the list exactly. */
  lemma FlipAllTwice(s: seq<Item>)
    ensures FlipAll(FlipAll(s)) == s
  {
  }
}
