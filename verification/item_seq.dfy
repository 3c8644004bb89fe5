/**
 * The live entries of the store and the insertion-ordered list that holds
 * them (Go's `container/list`, front = oldest), modelled as a sequence.
 */
module ItemSeq {

  /** One byte of an opaque (already encrypted) payload. */
  newtype Byte = b: int | 0 <= b < 256

  /** A live entry, Go's `item` struct: id, payload, creation time, payload length. */
  datatype Item = Item(id: string, data: seq<Byte>, createdAt: int, size: nat)

  /** Total payload size of the entries in `s`. */
  function SumSizes(s: seq<Item>): nat
  {
    if s == [] then 0 else s[0].size + SumSizes(s[1..])
  }

  /** No two entries of `s` carry the same id. */
  ghost predicate Unique(s: seq<Item>)
  {
    forall i, j :: 0 <= i < j < |s| ==> s[i].id != s[j].id
  }

  /** The entries of `s` are in ascending order of creation time. */
  ghost predicate Sorted(s: seq<Item>)
  {
    forall i, j :: 0 <= i < j < |s| ==> s[i].createdAt <= s[j].createdAt
  }

  /** The ids carried by the entries of `s`. */
  function IdsOf(s: seq<Item>): set<string>
  {
    set x | x in s :: x.id
  }

  /** Every entry of `s` records the length of its own payload as its size. */
  ghost predicate SizesMatch(s: seq<Item>)
  {
    forall x :: x in s ==> x.size == |x.data|
  }

  /**
   * `s` with the entries carrying `id` taken out, the rest in their order:
   * `list.Remove` of the element that holds `id`.
   */
  function Without(s: seq<Item>, id: string): (r: seq<Item>)
    ensures |r| <= |s|
    ensures forall x :: x in r <==> x in s && x.id != id
    ensures (exists x :: x in s && x.id == id) ==> |r| < |s|
  {
    if s == [] then []
    else if s[0].id == id then Without(s[1..], id)
    else [s[0]] + Without(s[1..], id)
  }

  /** Under uniqueness, the tail of `s` holds no entry with the id of its head. */
  lemma HeadIdNotInTail(s: seq<Item>)
    requires Unique(s) && s != []
    ensures forall y :: y in s[1..] ==> y.id != s[0].id
  {
    forall y | y in s[1..] ensures y.id != s[0].id {
      var k :| 0 <= k < |s[1..]| && s[1..][k] == y;
      assert s[k + 1] == y;
    }
  }

  /** Putting an entry with a new id in front keeps the ids unique. */
  lemma UniqueCons(x: Item, w: seq<Item>)
    requires Unique(w) && forall y :: y in w ==> y.id != x.id
    ensures Unique([x] + w)
  {
    var r := [x] + w;
    forall i, j | 0 <= i < j < |r| ensures r[i].id != r[j].id {
      assert r[j] == w[j - 1];
      if i > 0 {
        assert r[i] == w[i - 1];
      }
    }
  }

  /** Removing entries keeps the ids unique. */
  lemma {:induction false} WithoutUnique(s: seq<Item>, id: string)
    requires Unique(s)
    ensures Unique(Without(s, id))
  {
    if s != [] {
      assert Unique(s[1..]);
      WithoutUnique(s[1..], id);
      if s[0].id != id {
        HeadIdNotInTail(s);
        UniqueCons(s[0], Without(s[1..], id));
      }
    }
  }

  /** In a sorted list, the head was created no later than any entry of the tail. */
  lemma HeadNotAfterTail(s: seq<Item>)
    requires Sorted(s) && s != []
    ensures forall y :: y in s[1..] ==> s[0].createdAt <= y.createdAt
  {
    forall y | y in s[1..] ensures s[0].createdAt <= y.createdAt {
      var k :| 0 <= k < |s[1..]| && s[1..][k] == y;
      assert s[k + 1] == y;
    }
  }

  /** Putting an entry no newer than all others in front keeps the order. */
  lemma SortedCons(x: Item, w: seq<Item>)
    requires Sorted(w) && forall y :: y in w ==> x.createdAt <= y.createdAt
    ensures Sorted([x] + w)
  {
    var r := [x] + w;
    forall i, j | 0 <= i < j < |r| ensures r[i].createdAt <= r[j].createdAt {
      assert r[j] == w[j - 1];
      if i > 0 {
        assert r[i] == w[i - 1];
      }
    }
  }

  /** Putting an entry with a new id at the back keeps the ids unique. */
  lemma UniqueSnoc(w: seq<Item>, x: Item)
    requires Unique(w) && forall y :: y in w ==> y.id != x.id
    ensures Unique(w + [x])
  {
    var r := w + [x];
    forall i, j | 0 <= i < j < |r| ensures r[i].id != r[j].id {
      assert r[i] == w[i];
      if j < |w| {
        assert r[j] == w[j];
      } else {
        assert w[i] in w;
      }
    }
  }

  /** Putting an entry no older than all others at the back keeps the order. */
  lemma SortedSnoc(w: seq<Item>, x: Item)
    requires Sorted(w) && forall y :: y in w ==> y.createdAt <= x.createdAt
    ensures Sorted(w + [x])
  {
    var r := w + [x];
    forall i, j | 0 <= i < j < |r| ensures r[i].createdAt <= r[j].createdAt {
      assert r[i] == w[i];
      if j < |w| {
        assert r[j] == w[j];
      } else {
        assert w[i] in w;
      }
    }
  }

  /** Removing entries keeps the creation order. */
  lemma {:induction false} WithoutSorted(s: seq<Item>, id: string)
    requires Sorted(s)
    ensures Sorted(Without(s, id))
  {
    if s != [] {
      assert Sorted(s[1..]);
      WithoutSorted(s[1..], id);
      if s[0].id != id {
        HeadNotAfterTail(s);
        SortedCons(s[0], Without(s[1..], id));
      }
    }
  }

  /** Removing an id that no entry carries changes nothing. */
  lemma {:induction false} WithoutAbsent(s: seq<Item>, id: string)
    requires forall x :: x in s ==> x.id != id
    ensures Without(s, id) == s
  {
    if s != [] {
      assert s[0] in s;
      assert forall x :: x in s[1..] ==> x in s;
      WithoutAbsent(s[1..], id);
      assert s == [s[0]] + s[1..];
    }
  }

  /** Removing the oldest entry's id pops exactly the front of the list. */
  lemma WithoutFront(s: seq<Item>)
    requires Unique(s) && s != []
    ensures Without(s, s[0].id) == s[1..]
  {
    HeadIdNotInTail(s);
    WithoutAbsent(s[1..], s[0].id);
  }

  /** Removal distributes over concatenation. */
  lemma {:induction false} WithoutConcat(a: seq<Item>, b: seq<Item>, id: string)
    ensures Without(a + b, id) == Without(a, id) + Without(b, id)
  {
    if a == [] {
      assert a + b == b;
    } else {
      assert (a + b)[0] == a[0];
      assert (a + b)[1..] == a[1..] + b;
      WithoutConcat(a[1..], b, id);
    }
  }

  /** Under uniqueness, no entry before or after position `i` has the id of `s[i]`. */
  lemma UniqueAround(s: seq<Item>, i: int)
    requires Unique(s) && 0 <= i < |s|
    ensures forall x :: x in s[..i] ==> x.id != s[i].id
    ensures forall x :: x in s[i + 1..] ==> x.id != s[i].id
  {
    forall x | x in s[..i] ensures x.id != s[i].id {
      var k :| 0 <= k < i && s[..i][k] == x;
      assert s[k] == x;
    }
    forall x | x in s[i + 1..] ensures x.id != s[i].id {
      var k :| 0 <= k < |s| - i - 1 && s[i + 1..][k] == x;
      assert s[i + 1 + k] == x;
    }
  }

  /** Removing the id of an entry that occurs nowhere else takes out just that entry. */
  lemma WithoutSingle(a: seq<Item>, x: Item, b: seq<Item>)
    requires forall y :: y in a ==> y.id != x.id
    requires forall y :: y in b ==> y.id != x.id
    ensures Without(a + [x] + b, x.id) == a + b
  {
    calc {
      Without(a + [x] + b, x.id);
    == { WithoutConcat(a + [x], b, x.id); }
      Without(a + [x], x.id) + Without(b, x.id);
    == { WithoutConcat(a, [x], x.id); }
      Without(a, x.id) + Without([x], x.id) + Without(b, x.id);
    == { WithoutAbsent(a, x.id); WithoutAbsent(b, x.id); assert Without([x], x.id) == []; }
      a + [] + b;
    == { assert a + [] == a; }
      a + b;
    }
  }

  /**
   * Removing the id of the entry at position `i` takes out just that element
   * and keeps the others in their order, as `list.Remove` does.
   */
  lemma WithoutKeepsOrder(s: seq<Item>, i: int)
    requires Unique(s) && 0 <= i < |s|
    ensures Without(s, s[i].id) == s[..i] + s[i + 1..]
  {
    var a, b := s[..i], s[i + 1..];
    assert s == a + [s[i]] + b;
    UniqueAround(s, i);
    WithoutSingle(a, s[i], b);
  }

  /** Removing the one entry `x` lowers the total size by exactly `x.size`. */
  lemma {:induction false} SumSizesWithout(s: seq<Item>, x: Item)
    requires Unique(s) && x in s
    ensures SumSizes(Without(s, x.id)) == SumSizes(s) - x.size
  {
    if s[0] == x {
      WithoutFront(s);
    } else {
      assert Unique(s[1..]);
      assert x in s[1..];
      SumSizesWithout(s[1..], x);
    }
  }

  /** Removing the one entry `x` takes out exactly that entry and nothing else. */
  lemma {:induction false} WithoutOne(s: seq<Item>, x: Item)
    requires Unique(s) && x in s
    ensures multiset(Without(s, x.id)) + multiset{x} == multiset(s)
  {
    assert s == [s[0]] + s[1..];
    assert multiset(s) == multiset{s[0]} + multiset(s[1..]);
    if s[0] == x {
      WithoutFront(s);
    } else {
      var w := Without(s[1..], x.id);
      assert Unique(s[1..]);
      assert x in s[1..];
      WithoutOne(s[1..], x);
      assert Without(s, x.id) == [s[0]] + w;
      assert multiset([s[0]] + w) == multiset{s[0]} + multiset(w);
    }
  }

  /** Appending an entry at the back adds its size to the total. */
  lemma {:induction false} SumSizesAppend(s: seq<Item>, x: Item)
    ensures SumSizes(s + [x]) == SumSizes(s) + x.size
  {
    if s != [] {
      assert (s + [x])[1..] == s[1..] + [x];
      SumSizesAppend(s[1..], x);
    }
  }
}
