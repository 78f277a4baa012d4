/** The bookmark list of a user and the toggle applied to it. */
module Bookmarks {
  import opened Base

  /** `list.filter(x => x !== id)`: every occurrence of `id` dropped, the
      rest kept in order. */
  function RemoveAll(list: seq<Id>, id: Id): (r: seq<Id>)
    ensures id !in r
    ensures forall x :: x != id ==> (x in r <==> x in list)
    ensures |r| <= |list|
    ensures id !in list ==> r == list
    ensures NoDup(list) ==> NoDup(r)
    ensures |list| == 1 ==> r == if list[0] == id then [] else list
  {
    if list == [] then []
    else if list[0] == id then RemoveAll(list[1..], id)
    else
      var rest := RemoveAll(list[1..], id);
      assert NoDup(list) ==> list[0] !in list[1..] && NoDup(list[1..]) by {
        if NoDup(list) {
          forall k | 0 <= k < |list[1..]| ensures list[1..][k] != list[0] {
            assert list[1..][k] == list[k + 1];
          }
        }
      }
      [list[0]] + rest
  }

  /** Removal keeps the order of what it keeps: it works on each part of
      a concatenation separately. With the one-element case above, this
      fixes `RemoveAll` as the order-preserving filter. */
  lemma {:induction false} RemoveAllConcat(a: seq<Id>, b: seq<Id>, id: Id)
    ensures RemoveAll(a + b, id) == RemoveAll(a, id) + RemoveAll(b, id)
  {
    if a == [] {
      assert a + b == b;
    } else {
      assert (a + b)[0] == a[0] && (a + b)[1..] == a[1..] + b;
      RemoveAllConcat(a[1..], b, id);
    }
  }

  /** The bookmark toggle: a present id is removed (every occurrence), an
      absent one is appended once. Afterwards `id` is bookmarked exactly
      when it was not before, every other bookmark is as it was, and a
      duplicate-free list stays duplicate-free. */
  function Toggled(list: seq<Id>, id: Id): (r: seq<Id>)
    ensures forall x :: x in r <==> (if x == id then id !in list else x in list)
    ensures id !in list ==> r == list + [id]
    ensures id in list ==> r == RemoveAll(list, id)
    ensures NoDup(list) ==> NoDup(r)
  {
    if id in list then RemoveAll(list, id) else list + [id]
  }

  /** Toggling twice restores the original membership; when the id was not
      bookmarked, it restores the list itself. */
  lemma ToggleTwice(list: seq<Id>, id: Id)
    ensures forall x :: x in Toggled(Toggled(list, id), id) <==> x in list
    ensures id !in list ==> Toggled(Toggled(list, id), id) == list
  {
    if id !in list {
      RemoveAppended(list, id);
    }
  }

  /** Appending an absent id and removing it again gives the list back. */
  lemma {:induction false} RemoveAppended(list: seq<Id>, id: Id)
    requires id !in list
    ensures RemoveAll(list + [id], id) == list
  {
    if list == [] {
      assert [id][1..] == [];
    } else {
      assert (list + [id])[1..] == list[1..] + [id];
      RemoveAppended(list[1..], id);
    }
  }
}
