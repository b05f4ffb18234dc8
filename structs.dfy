/**
 The `BTreeMap<String, Value>` inside `Value::Struct`, as the sequence of its
 entries in iteration order.

 Rust orders `String` keys bytewise on their UTF-8 encoding, which is the
 same order as comparing code points one by one; `Below` is that strict
 order.  A well-formed member list has strictly ascending names, so names
 are unique and the list is determined by the entries alone.
 */
module Structs {

  import opened Wrappers
  import opened Values

  /** `a < b` for Rust `String`s: lexicographic, a proper prefix comes first. */
  predicate Below(a: string, b: string)
  {
    b != [] && (a == [] || a[0] < b[0] || (a[0] == b[0] && Below(a[1..], b[1..])))
  }

  lemma {:induction false} BelowIrreflexive(a: string)
    ensures !Below(a, a)
  {
    if a != [] {
      BelowIrreflexive(a[1..]);
    }
  }

  lemma {:induction false} BelowTransitive(a: string, b: string, c: string)
    requires Below(a, b) && Below(b, c)
    ensures Below(a, c)
  {
    if a != [] && a[0] == b[0] && b[0] == c[0] {
      BelowTransitive(a[1..], b[1..], c[1..]);
    }
  }

  lemma BelowAsymmetric(a: string, b: string)
    ensures !(Below(a, b) && Below(b, a))
  {
    if Below(a, b) && Below(b, a) {
      BelowTransitive(a, b, a);
      BelowIrreflexive(a);
    }
  }

  /** Any two distinct names are ordered one way or the other. */
  lemma {:induction false} BelowTotal(a: string, b: string)
    requires a != b
    ensures Below(a, b) || Below(b, a)
  {
    if a != [] && b != [] && a[0] == b[0] {
      assert a == [a[0]] + a[1..] && b == [b[0]] + b[1..];
      BelowTotal(a[1..], b[1..]);
    }
  }

  /** The `BTreeMap` iteration order: names strictly ascend. */
  predicate Sorted(ms: seq<Member>)
  {
    forall i, j :: 0 <= i < j < |ms| ==> Below(ms[i].name, ms[j].name)
  }

  /** Every `Struct` anywhere in the tree lists its members in map order. */
  predicate WellFormed(v: Value)
    decreases v
  {
    match v
    case Struct(ms) => Sorted(ms) && forall i :: 0 <= i < |ms| ==> WellFormed(ms[i].value)
    case Array(vs) => forall i :: 0 <= i < |vs| ==> WellFormed(vs[i])
    case _ => true
  }

  /** `BTreeMap::get`: the value stored under `key`, if any. */
  function Get(ms: seq<Member>, key: string): (r: Option<Value>)
    ensures r.Some? <==> exists i :: 0 <= i < |ms| && ms[i].name == key
    ensures r.Some? ==> exists i :: 0 <= i < |ms| && ms[i] == Member(key, r.value)
  {
    if ms == [] then None
    else if ms[0].name == key then Some(ms[0].value)
    else
      var r := Get(ms[1..], key);
      assert forall i :: 1 <= i < |ms| ==> ms[i] == ms[1..][i - 1];
      r
  }

  /** In a sorted list, `Get` finds the one member that carries the name. */
  lemma GetAt(ms: seq<Member>, i: nat)
    requires Sorted(ms) && i < |ms|
    ensures Get(ms, ms[i].name) == Some(ms[i].value)
  {
    var j :| 0 <= j < |ms| && ms[j] == Member(ms[i].name, Get(ms, ms[i].name).value);
    if j != i {
      BelowIrreflexive(ms[i].name);
    }
  }

  /** A name below the first one of a sorted list is not in it. */
  lemma GetBelowFirst(ms: seq<Member>, key: string)
    requires Sorted(ms) && ms != [] && (key == ms[0].name || Below(key, ms[0].name))
    ensures Get(ms[1..], key) == None
  {
    if Get(ms[1..], key).Some? {
      var i :| 0 <= i < |ms[1..]| && ms[1..][i].name == key;
      assert Below(ms[0].name, ms[i + 1].name);
      if key == ms[0].name {
        BelowIrreflexive(key);
      } else {
        BelowTransitive(key, ms[0].name, key);
        BelowIrreflexive(key);
      }
    }
  }

  /** A member whose name is below the first name of a sorted list can go in front of it. */
  lemma ConsSorted(m: Member, ms: seq<Member>)
    requires Sorted(ms) && (ms == [] || Below(m.name, ms[0].name))
    ensures Sorted([m] + ms)
  {
    var r := [m] + ms;
    forall i, j | 0 <= i < j < |r| ensures Below(r[i].name, r[j].name) {
      if i == 0 && j > 1 {
        BelowTransitive(m.name, ms[0].name, ms[j - 1].name);
      }
    }
  }

  /** `BTreeMap::insert`: adds the entry, or replaces the value under an existing name. */
  function Insert(ms: seq<Member>, key: string, value: Value): (r: seq<Member>)
    requires Sorted(ms)
    ensures Sorted(r)
    ensures Get(r, key) == Some(value)
    ensures forall k :: k != key ==> Get(r, k) == Get(ms, k)
  {
    if ms == [] then [Member(key, value)]
    else if ms[0].name == key then
      var r := [Member(key, value)] + ms[1..];
      assert r[1..] == ms[1..];
      ConsSorted(Member(key, value), ms[1..]);
      r
    else if Below(key, ms[0].name) then
      var r := [Member(key, value)] + ms;
      assert r[1..] == ms;
      ConsSorted(Member(key, value), ms);
      r
    else
      var tail := Insert(ms[1..], key, value);
      var r := [ms[0]] + tail;
      assert r[1..] == tail;
      InsertAfterFirst(ms, key, tail);
      ConsSorted(ms[0], tail);
      r
  }

  /** Names inserted past the first member of a sorted list stay above it. */
  lemma InsertAfterFirst(ms: seq<Member>, key: string, tail: seq<Member>)
    requires Sorted(ms) && ms != [] && key != ms[0].name && !Below(key, ms[0].name)
    requires tail != [] && Get(tail, tail[0].name).Some?
    requires forall k :: k != key ==> Get(tail, k) == Get(ms[1..], k)
    ensures Below(ms[0].name, tail[0].name)
  {
    BelowTotal(key, ms[0].name);
    var name := tail[0].name;
    if name != key {
      assert Get(ms[1..], name).Some?;
      var i :| 0 <= i < |ms[1..]| && ms[1..][i].name == name;
      assert Below(ms[0].name, ms[i + 1].name);
    }
  }

  /**
   A sorted member list is determined by the entries it holds: two sorted
   lists that agree on every lookup are the same list.
   */
  lemma {:induction false} SameEntriesSameMembers(a: seq<Member>, b: seq<Member>)
    requires Sorted(a) && Sorted(b)
    requires forall k :: Get(a, k) == Get(b, k)
    ensures a == b
  {
    if b != [] {
      assert Get(b, b[0].name).Some?;
    }
    if a != [] {
      assert Get(a, a[0].name).Some?;
      var j :| 0 <= j < |b| && b[j].name == a[0].name;
      var i :| 0 <= i < |a| && a[i].name == b[0].name;
      BelowAsymmetric(a[0].name, b[0].name);
      assert i == 0 || j == 0;
      GetAt(a, 0);
      GetAt(b, 0);
      assert a[0] == b[0];
      forall k ensures Get(a[1..], k) == Get(b[1..], k) {
        if k == a[0].name {
          GetBelowFirst(a, k);
          GetBelowFirst(b, k);
        } else {
          assert Get(a, k) == Get(a[1..], k);
          assert Get(b, k) == Get(b[1..], k);
        }
      }
      SameEntriesSameMembers(a[1..], b[1..]);
      assert a == [a[0]] + a[1..] && b == [b[0]] + b[1..];
    }
  }

  /** Inserting two different names gives the same map in either order. */
  lemma InsertOrderIrrelevant(ms: seq<Member>, k1: string, v1: Value, k2: string, v2: Value)
    requires Sorted(ms) && k1 != k2
    ensures Insert(Insert(ms, k1, v1), k2, v2) == Insert(Insert(ms, k2, v2), k1, v1)
  {
    var a := Insert(Insert(ms, k1, v1), k2, v2);
    var b := Insert(Insert(ms, k2, v2), k1, v1);
    forall k ensures Get(a, k) == Get(b, k) {
    }
    SameEntriesSameMembers(a, b);
  }

  /** Inserting into a well-formed struct a well-formed value keeps it well-formed. */
  lemma InsertWellFormed(ms: seq<Member>, key: string, value: Value)
    requires WellFormed(Struct(ms)) && WellFormed(value)
    ensures WellFormed(Struct(Insert(ms, key, value)))
  {
    var r := Insert(ms, key, value);
    forall i | 0 <= i < |r| ensures WellFormed(r[i].value) {
      if r[i].name == key {
        GetAt(r, i);
      } else {
        GetAt(r, i);
        var j :| 0 <= j < |ms| && ms[j] == Member(r[i].name, Get(ms, r[i].name).value);
      }
    }
  }
}
