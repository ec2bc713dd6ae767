/**
 Sets of algolib/source/set.c: lists without two matching elements. Elements match when they
 have the same key, so `key` stands for an arbitrary match relation that is an equivalence.
 */
module MatchSet {
  import opened LinkedList
  import opened Ordering
  import opened Queue
  import opened Wrappers

  ghost predicate IsSet<T, K>(key: T -> K, s: seq<T>) {
    forall i, j :: 0 <= i < j < |s| ==> key(s[i]) != key(s[j])
  }

  /** What a set denotes up to matching. */
  ghost function Keys<T, K>(key: T -> K, s: seq<T>): set<K> {
    set i | 0 <= i < |s| :: key(s[i])
  }

  ghost function In<T, K>(key: T -> K, s: seq<T>): T -> bool {
    var keys := Keys(key, s);
    x => key(x) in keys
  }

  ghost function NotIn<T, K>(key: T -> K, s: seq<T>): T -> bool {
    var keys := Keys(key, s);
    x => key(x) !in keys
  }

  // ----- the sequences that the operations leave

  ghost function Unite<T, K>(key: T -> K, s: seq<T>, t: seq<T>): seq<T> {
    s + Filter(t, NotIn(key, s))
  }

  ghost function Intersect<T, K>(key: T -> K, s: seq<T>, t: seq<T>): seq<T> {
    Filter(s, In(key, t))
  }

  ghost function Subtract<T, K>(key: T -> K, s: seq<T>, t: seq<T>): seq<T> {
    Filter(s, NotIn(key, t))
  }

  lemma KeysConcat<T, K>(key: T -> K, s: seq<T>, t: seq<T>)
    ensures Keys(key, s + t) == Keys(key, s) + Keys(key, t)
  {
    forall k | k in Keys(key, s) ensures k in Keys(key, s + t) {
      var i :| 0 <= i < |s| && key(s[i]) == k;
      assert (s + t)[i] == s[i];
    }
    forall k | k in Keys(key, t) ensures k in Keys(key, s + t) {
      var i :| 0 <= i < |t| && key(t[i]) == k;
      assert (s + t)[|s| + i] == t[i];
    }
  }

  lemma {:induction false} SetSize<T, K>(key: T -> K, s: seq<T>)
    requires IsSet(key, s)
    ensures |Keys(key, s)| == |s|
  {
    if s != [] {
      var last := |s| - 1;
      SetSize(key, s[..last]);
      KeysConcat(key, s[..last], [s[last]]);
      assert s == s[..last] + [s[last]];
      assert Keys(key, [s[last]]) == {key(s[last])} by {
        assert key([s[last]][0]) in Keys(key, [s[last]]);
      }
    } else {
      assert Keys(key, s) == {};
    }
  }

  lemma {:induction false} FilteredSet<T, K>(key: T -> K, s: seq<T>, p: T -> bool)
    requires IsSet(key, s)
    ensures IsSet(key, Filter(s, p))
  {
    if s != [] {
      var rest := Filter(s[1..], p);
      FilteredSet(key, s[1..], p);
      forall i | 0 <= i < |rest| ensures key(rest[i]) != key(s[0]) {
        FilterMember(s[1..], p, rest[i]);
        var j :| 0 <= j < |s[1..]| && s[1..][j] == rest[i];
        assert s[1..][j] == s[j + 1];
      }
    }
  }

  lemma FilteredKeys<T, K>(key: T -> K, s: seq<T>, t: seq<T>)
    ensures Keys(key, Filter(s, In(key, t))) == Keys(key, s) * Keys(key, t)
    ensures Keys(key, Filter(s, NotIn(key, t))) == Keys(key, s) - Keys(key, t)
  {
    var inside, outside := Filter(s, In(key, t)), Filter(s, NotIn(key, t));
    forall i | 0 <= i < |inside| ensures key(inside[i]) in Keys(key, s) * Keys(key, t) {
      FilterMember(s, In(key, t), inside[i]);
    }
    forall i | 0 <= i < |outside| ensures key(outside[i]) in Keys(key, s) - Keys(key, t) {
      FilterMember(s, NotIn(key, t), outside[i]);
    }
    forall i | 0 <= i < |s|
      ensures key(s[i]) in Keys(key, t) ==> key(s[i]) in Keys(key, inside)
      ensures key(s[i]) !in Keys(key, t) ==> key(s[i]) in Keys(key, outside)
    {
      FilterMember(s, In(key, t), s[i]);
      FilterMember(s, NotIn(key, t), s[i]);
    }
  }

  lemma UnitedSet<T, K>(key: T -> K, s: seq<T>, t: seq<T>)
    requires IsSet(key, s) && IsSet(key, t)
    ensures IsSet(key, Unite(key, s, t)) && Keys(key, Unite(key, s, t)) == Keys(key, s) + Keys(key, t)
  {
    var added := Filter(t, NotIn(key, s));
    FilteredSet(key, t, NotIn(key, s));
    FilteredKeys(key, t, s);
    KeysConcat(key, s, added);
    forall i, j | 0 <= i < |s| && 0 <= j < |added| ensures key(s[i]) != key(added[j]) {
      assert key(added[j]) in Keys(key, added) && key(s[i]) in Keys(key, s);
    }
  }

  lemma SetSizes<K>(a: set<K>, b: set<K>)
    ensures |a + b| + |a * b| == |a| + |b|
    ensures |a - b| + |a * b| == |a|
  {
    assert a == (a - b) + a * b && (a - b) !! a * b;
  }

  /** The operations compute union, intersection and difference up to matching, without
      duplicates, and their sizes add up. */
  lemma SetAlgebra<T, K>(key: T -> K, s: seq<T>, t: seq<T>)
    requires IsSet(key, s) && IsSet(key, t)
    ensures IsSet(key, Unite(key, s, t)) && Keys(key, Unite(key, s, t)) == Keys(key, s) + Keys(key, t)
    ensures IsSet(key, Intersect(key, s, t)) && Keys(key, Intersect(key, s, t)) == Keys(key, s) * Keys(key, t)
    ensures IsSet(key, Subtract(key, s, t)) && Keys(key, Subtract(key, s, t)) == Keys(key, s) - Keys(key, t)
    ensures |Unite(key, s, t)| + |Intersect(key, s, t)| == |s| + |t|
    ensures |Subtract(key, s, t)| + |Intersect(key, s, t)| == |s|
  {
    hide IsSet, Keys, Unite;
    FilteredSet(key, s, In(key, t));
    FilteredSet(key, s, NotIn(key, t));
    FilteredKeys(key, s, t);
    UnitedSet(key, s, t);
    SetSize(key, s);
    SetSize(key, t);
    SetSize(key, Unite(key, s, t));
    SetSize(key, Intersect(key, s, t));
    SetSize(key, Subtract(key, s, t));
    SetSizes(Keys(key, s), Keys(key, t));
  }

  ghost predicate Matches<T, K>(key: T -> K, s: seq<T>, x: T) {
    exists i :: 0 <= i < |s| && key(s[i]) == key(x)
  }

  lemma MatchesIff<T, K>(key: T -> K, s: seq<T>, x: T)
    ensures Matches(key, s, x) <==> key(x) in Keys(key, s)
  {
  }

  /** Element by element: the intersection picks the members of s that match one of t, the difference the other
      ones, and the union puts those of t that match none of s behind all of s. */
  lemma PickedMembers<T, K>(key: T -> K, s: seq<T>, t: seq<T>)
    returns (inside: seq<nat>, outside: seq<nat>, added: seq<nat>)
    ensures PickedFrom(s, Intersect(key, s, t), inside)
    ensures forall m: nat :: m in inside <==> m < |s| && Matches(key, t, s[m])
    ensures PickedFrom(s, Subtract(key, s, t), outside)
    ensures forall m: nat :: m in outside <==> m < |s| && !Matches(key, t, s[m])
    ensures |Unite(key, s, t)| >= |s| && Unite(key, s, t)[..|s|] == s && PickedFrom(t, Unite(key, s, t)[|s|..], added)
    ensures forall m: nat :: m in added <==> m < |t| && !Matches(key, s, t[m])
  {
    hide Filter, PickedFrom;
    inside := FilterPicks(s, In(key, t));
    outside := FilterPicks(s, NotIn(key, t));
    added := FilterPicks(t, NotIn(key, s));
    assert Unite(key, s, t)[|s|..] == Filter(t, NotIn(key, s));
  }

  lemma SubsetSizes<K>(a: set<K>, b: set<K>)
    requires a <= b
    ensures |a| <= |b| && (|a| == |b| ==> a == b)
  {
    assert b == a + (b - a) && a !! b - a;
    assert |b| == |a| + |b - a|;
    assert b - a == {} ==> a == b;
  }

  // ----- the operations on lists

  method IsMember<T, K(==)>(key: T -> K, s: List<T>, data: T) returns (found: bool)
    requires s.Valid()
    ensures found <==> key(data) in Keys(key, s.Contents())
    ensures found <==> Matches(key, s.Contents(), data)
  {
    var member := s.head;
    ghost var i := 0;
    while member != null
      invariant 0 <= i <= |s.spine|
      invariant member == if i < |s.spine| then s.spine[i] else null
      invariant forall t :: 0 <= t < i ==> key(s.Contents()[t]) != key(data)
      decreases |s.spine| - i
    {
      if key(data) == key(member.data) {
        assert key(s.Contents()[i]) == key(data);
        return true;
      }
      member := member.next;
      i := i + 1;
    }
    found := false;
  }

  method Insert<T, K(==)>(key: T -> K, s: List<T>, data: T) returns (status: int)
    requires s.Valid() && IsSet(key, s.Contents())
    modifies s, s.tail
    ensures s.Valid() && IsSet(key, s.Contents())
    ensures status == if key(data) in old(Keys(key, s.Contents())) then 1 else 0
    ensures s.Contents() == if status == 0 then old(s.Contents()) + [data] else old(s.Contents())
  {
    var present := IsMember(key, s, data);
    if present {
      return 1;
    }
    Enqueue(s, data);
    status := 0;
  }

  method Remove<T, K(==)>(key: T -> K, s: List<T>, data: T) returns (status: int, removed: Option<T>)
    requires s.Valid() && IsSet(key, s.Contents())
    modifies s, s.spine
    ensures s.Valid() && IsSet(key, s.Contents())
    ensures status == if key(data) in old(Keys(key, s.Contents())) then 0 else -1
    ensures status == 0 ==> removed.Some? && key(removed.value) == key(data)
    ensures status == 0 ==> exists k :: 0 <= k < |old(s.Contents())| && old(s.Contents())[k] == removed.value
                              && s.Contents() == old(s.Contents())[..k] + old(s.Contents())[k + 1..]
    ensures status != 0 ==> removed == None && s.Contents() == old(s.Contents())
  {
    var member, prev := s.head, null;
    ghost var i, was := 0, s.Contents();
    while member != null
      invariant 0 <= i <= |s.spine|
      invariant member == if i < |s.spine| then s.spine[i] else null
      invariant prev == if i == 0 then null else s.spine[i - 1]
      invariant forall t :: 0 <= t < i ==> key(was[t]) != key(data)
      decreases |s.spine| - i
    {
      if key(data) == key(member.data) {
        break;
      }
      prev := member;
      member := member.next;
      i := i + 1;
    }
    if member == null {
      return -1, None;
    }
    assert key(was[i]) == key(data);
    ghost var k;
    status, removed, k := s.RemNext(prev);
    assert k == i;
  }

  ghost function Selected<T, K>(key: T -> K, t: seq<T>, wanted: bool): T -> bool {
    if wanted then In(key, t) else NotIn(key, t)
  }

  lemma FilterNext<T, K>(key: T -> K, s: seq<T>, t: seq<T>, wanted: bool, i: nat)
    requires i < |s|
    ensures Filter(s[..i + 1], Selected(key, t, wanted)) == Filter(s[..i], Selected(key, t, wanted))
                         + if (key(s[i]) in Keys(key, t)) == wanted then [s[i]] else []
  {
    assert s[..i + 1] == s[..i] + [s[i]];
    FilterConcat(s[..i], [s[i]], Selected(key, t, wanted));
  }

  /** The union after i members of the second set. */
  ghost function UniteFirst<T, K>(key: T -> K, s: seq<T>, t: seq<T>, i: nat): seq<T>
    requires i <= |t|
  {
    s + Filter(t[..i], NotIn(key, s))
  }

  lemma UniteNext<T, K>(key: T -> K, s: seq<T>, t: seq<T>, i: nat)
    requires i < |t|
    ensures UniteFirst(key, s, t, i + 1)
      == UniteFirst(key, s, t, i) + if (key(t[i]) in Keys(key, s)) == false then [t[i]] else []
  {
    hide Filter, NotIn, Keys;
    FilterNext(key, t, s, false, i);
  }

  lemma UniteEnds<T, K>(key: T -> K, s: seq<T>, t: seq<T>)
    ensures UniteFirst(key, s, t, 0) == s && UniteFirst(key, s, t, |t|) == Unite(key, s, t)
  {
    FilterStart(t, NotIn(key, s));
  }

  lemma FilterStart<T>(s: seq<T>, p: T -> bool)
    ensures Filter(s[..0], p) == [] && s[..|s|] == s
  {
  }

  /** Appends x if its membership in t comes out as `wanted`. */
  method Offer<T, K(==)>(key: T -> K, into: List<T>, x: T, t: List<T>, wanted: bool)
    requires into.Valid() && t.Valid()
    modifies into, into.tail
    ensures into.Valid()
    ensures into.Contents() ==
      old(into.Contents()) + if (key(x) in old(Keys(key, t.Contents()))) == wanted then [x] else []
    ensures forall i :: 0 <= i < |into.spine| ==> into.spine[i] in old(into.spine) || fresh(into.spine[i])
  {
    var present := IsMember(key, t, x);
    if present == wanted {
      Enqueue(into, x);
    }
  }

  /** The first loop of set_union. */
  method Copy<T>(s: List<T>) returns (u: List<T>)
    requires s.Valid()
    ensures fresh(u) && u.Valid() && forall m :: 0 <= m < |u.spine| ==> fresh(u.spine[m])
    ensures u.Contents() == s.Contents()
  {
    ghost var c := s.Contents();
    u := new List();
    var member := s.head;
    ghost var i := 0;
    while member != null
      invariant fresh(u) && u.Valid() && forall m :: 0 <= m < |u.spine| ==> fresh(u.spine[m])
      invariant 0 <= i <= |s.spine|
      invariant member == if i < |s.spine| then s.spine[i] else null
      invariant u.Contents() == c[..i]
      decreases |s.spine| - i
    {
      Enqueue(u, member.data);
      member := member.next;
      i := i + 1;
    }
  }

  method Union<T, K(==)>(key: T -> K, s: List<T>, t: List<T>) returns (u: List<T>)
    requires s.Valid() && t.Valid() && IsSet(key, s.Contents()) && IsSet(key, t.Contents())
    ensures fresh(u) && u.Valid()
    ensures u.Contents() == Unite(key, s.Contents(), t.Contents())
  {
    hide UniteFirst, Unite, Keys, IsSet;
    ghost var c, d := s.Contents(), t.Contents();
    u := Copy(s);
    var member := t.head;
    ghost var i := 0;
    UniteEnds(key, c, d);
    while member != null
      invariant fresh(u) && u.Valid() && forall m :: 0 <= m < |u.spine| ==> fresh(u.spine[m])
      invariant 0 <= i <= |t.spine|
      invariant member == if i < |t.spine| then t.spine[i] else null
      invariant u.Contents() == UniteFirst(key, c, d, i)
      decreases |t.spine| - i
    {
      UniteNext(key, c, d, i);
      Offer(key, u, member.data, s, false);
      member := member.next;
      i := i + 1;
    }
  }

  /** The loop that set_intersection and set_difference share but for the test. */
  method Select<T, K(==)>(key: T -> K, s: List<T>, t: List<T>, wanted: bool) returns (u: List<T>)
    requires s.Valid() && t.Valid()
    ensures fresh(u) && u.Valid()
    ensures u.Contents() == Filter(s.Contents(), Selected(key, t.Contents(), wanted))
  {
    hide Filter, Selected, Keys;
    ghost var c, d := s.Contents(), t.Contents();
    ghost var p := Selected(key, d, wanted);
    u := new List();
    var member := s.head;
    ghost var i := 0;
    FilterStart(c, p);
    while member != null
      invariant fresh(u) && u.Valid() && forall m :: 0 <= m < |u.spine| ==> fresh(u.spine[m])
      invariant 0 <= i <= |s.spine|
      invariant member == if i < |s.spine| then s.spine[i] else null
      invariant u.Contents() == Filter(c[..i], p)
      decreases |s.spine| - i
    {
      FilterNext(key, c, d, wanted, i);
      Offer(key, u, member.data, t, wanted);
      member := member.next;
      i := i + 1;
    }
  }

  method Intersection<T, K(==)>(key: T -> K, s: List<T>, t: List<T>) returns (u: List<T>)
    requires s.Valid() && t.Valid() && IsSet(key, s.Contents()) && IsSet(key, t.Contents())
    ensures fresh(u) && u.Valid()
    ensures u.Contents() == Intersect(key, s.Contents(), t.Contents())
  {
    u := Select(key, s, t, true);
  }

  method Difference<T, K(==)>(key: T -> K, s: List<T>, t: List<T>) returns (u: List<T>)
    requires s.Valid() && t.Valid() && IsSet(key, s.Contents()) && IsSet(key, t.Contents())
    ensures fresh(u) && u.Valid()
    ensures u.Contents() == Subtract(key, s.Contents(), t.Contents())
  {
    u := Select(key, s, t, false);
  }

  lemma AllMatch<T, K>(key: T -> K, s: seq<T>, t: seq<T>)
    ensures Keys(key, s) <= Keys(key, t) <==> forall i :: 0 <= i < |s| ==> Matches(key, t, s[i])
  {
    forall i | 0 <= i < |s|
      ensures key(s[i]) in Keys(key, s) && (Matches(key, t, s[i]) <==> key(s[i]) in Keys(key, t))
    {
      MatchesIff(key, t, s[i]);
    }
  }

  /** The size test in front of the walk refuses nothing that the walk would accept. */
  method IsSubset<T, K(==)>(key: T -> K, s: List<T>, t: List<T>) returns (subset: bool)
    requires s.Valid() && t.Valid() && IsSet(key, s.Contents()) && IsSet(key, t.Contents())
    ensures subset <==> Keys(key, s.Contents()) <= Keys(key, t.Contents())
    ensures subset <==> forall i :: 0 <= i < |s.Contents()| ==> Matches(key, t.Contents(), s.Contents()[i])
  {
    ghost var c, d := s.Contents(), t.Contents();
    AllMatch(key, c, d);
    SetSize(key, c);
    SetSize(key, d);
    if s.size > t.size {
      assert !(Keys(key, c) <= Keys(key, d)) by {
        if Keys(key, c) <= Keys(key, d) { SubsetSizes(Keys(key, c), Keys(key, d)); }
      }
      return false;
    }
    var member := s.head;
    ghost var i := 0;
    while member != null
      invariant 0 <= i <= |s.spine|
      invariant member == if i < |s.spine| then s.spine[i] else null
      invariant forall m :: 0 <= m < i ==> key(c[m]) in Keys(key, d)
      decreases |s.spine| - i
    {
      var present := IsMember(key, t, member.data);
      if !present {
        assert key(c[i]) in Keys(key, c);
        return false;
      }
      member := member.next;
      i := i + 1;
    }
    subset := true;
  }

  /** Equal sizes and one inclusion are enough. */
  method IsEqual<T, K(==)>(key: T -> K, s: List<T>, t: List<T>) returns (equal: bool)
    requires s.Valid() && t.Valid() && IsSet(key, s.Contents()) && IsSet(key, t.Contents())
    ensures equal <==> Keys(key, s.Contents()) == Keys(key, t.Contents())
    ensures equal <==>
      && (forall i :: 0 <= i < |s.Contents()| ==> Matches(key, t.Contents(), s.Contents()[i]))
      && (forall i :: 0 <= i < |t.Contents()| ==> Matches(key, s.Contents(), t.Contents()[i]))
  {
    hide *;
    ghost var c, d := s.Contents(), t.Contents();
    s.Ends();
    t.Ends();
    AllMatch(key, c, d);
    AllMatch(key, d, c);
    SetSize(key, c);
    SetSize(key, d);
    if s.size != t.size {
      return false;
    }
    equal := IsSubset(key, s, t);
    if equal {
      SubsetSizes(Keys(key, c), Keys(key, d));
    }
  }
}
