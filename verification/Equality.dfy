/** operator== of values, which looks up the members of the left object in the right one, against an equality that does
    not know of order (document.h). */
module Equality {
  import opened Streams
  import opened Events
  import opened Dom

  /** What comparing doubles needs to know of them. */
  datatype Doubles = Doubles(ofInt: int -> Float, same: (Float, Float) -> bool)

  /** FindMember: the first member of a name, or the number of members. */
  function FindMember(members: seq<Member>, name: bytes): (i: nat)
    ensures i <= |members| && (i < |members| ==> members[i].name == name)
    ensures forall j | 0 <= j < i :: members[j].name != name
  {
    if members == [] || members[0].name == name then 0 else 1 + FindMember(members[1..], name)
  }

  predicate IsNumber(v: Value) {
    v.NumberValue? || v.DoubleValue?
  }

  function GetDouble(fl: Doubles, v: Value): Float
    requires IsNumber(v)
  {
    if v.DoubleValue? then v.d else fl.ofInt(v.n)
  }

  /** The 64 bits an integer is kept in. */
  function Bits(n: int): nat {
    n % 0x1_0000_0000_0000_0000
  }

  predicate EqualTo(fl: Doubles, a: Value, b: Value)
    decreases a, Width(a) + 2
  {
    match a
    case NullValue => b.NullValue?
    case BoolValue(_) => a == b
    case StringValue(text) => b.StringValue? && text == b.text
    case NumberValue(n, _) =>
      IsNumber(b) && if b.DoubleValue? then fl.same(GetDouble(fl, a), b.d) else Bits(n) == Bits(b.n)
    case DoubleValue(d) => IsNumber(b) && fl.same(d, GetDouble(fl, b))
    case ArrayValue(elements) => b.ArrayValue? && |elements| == |b.elements| && ElementsEqual(fl, a, b, 0)
    case ObjectValue(members) => b.ObjectValue? && |members| == |b.members| && MembersFound(fl, a, b, 0)
  }

  predicate ElementsEqual(fl: Doubles, a: Value, b: Value, k: nat)
    requires a.ArrayValue? && b.ArrayValue? && |a.elements| == |b.elements| && k <= |a.elements|
    decreases a, |a.elements| - k + 1
  {
    k == |a.elements| || (EqualTo(fl, a.elements[k], b.elements[k]) && ElementsEqual(fl, a, b, k + 1))
  }

  /** Whether every left member from `k` on has an equal one where its name is first found on the right. */
  predicate MembersFound(fl: Doubles, a: Value, b: Value, k: nat)
    requires a.ObjectValue? && b.ObjectValue? && k <= |a.members|
    decreases a, |a.members| - k + 1
  {
    k == |a.members| || (
      && var i := FindMember(b.members, a.members[k].name);
      && i < |b.members| && EqualTo(fl, a.members[k].value, b.members[i].value)
      && MembersFound(fl, a, b, k + 1))
  }

  // ---------------------------------------------------------------- the loops

  method Find(members: seq<Member>, name: bytes) returns (i: nat)
    ensures i == FindMember(members, name)
  {
    i := 0;
    while i < |members| && members[i].name != name
      invariant i <= |members| && FindMember(members, name) == i + FindMember(members[i..], name)
    {
      assert members[i..][1..] == members[i + 1..];
      i := i + 1;
    }
  }

  method Equals(fl: Doubles, lhs: Value, rhs: Value) returns (same: bool)
    ensures same == EqualTo(fl, lhs, rhs)
    decreases lhs
  {
    match lhs
    case ObjectValue(members) =>
      if !rhs.ObjectValue? || |members| != |rhs.members| {
        return false;
      }
      for k := 0 to |members|
        invariant MembersFound(fl, lhs, rhs, 0) == MembersFound(fl, lhs, rhs, k)
      {
        var i := Find(rhs.members, members[k].name);
        if i == |rhs.members| {
          return false;
        }
        var alike := Equals(fl, members[k].value, rhs.members[i].value);
        if !alike {
          return false;
        }
      }
      return true;
    case ArrayValue(elements) =>
      if !rhs.ArrayValue? || |elements| != |rhs.elements| {
        return false;
      }
      for k := 0 to |elements|
        invariant ElementsEqual(fl, lhs, rhs, 0) == ElementsEqual(fl, lhs, rhs, k)
      {
        var alike := Equals(fl, elements[k], rhs.elements[k]);
        if !alike {
          return false;
        }
      }
      return true;
    case StringValue(text) =>
      return rhs.StringValue? && text == rhs.text;
    case NullValue =>
      return rhs.NullValue?;
    case BoolValue(_) =>
      return lhs == rhs;
    case DoubleValue(d) =>
      return IsNumber(rhs) && fl.same(d, GetDouble(fl, rhs));
    case NumberValue(n, _) =>
      if !IsNumber(rhs) {
        return false;
      }
      return if rhs.DoubleValue? then fl.same(GetDouble(fl, lhs), rhs.d) else Bits(n) == Bits(rhs.n);
  }

  // ---------------------------------------------------------------- an equality without order

  /** Numbers are the same if they differ by a multiple of 2^64; or, where one is a double, if the doubles are. */
  predicate SameNumber(fl: Doubles, a: Value, b: Value) {
    match (a, b)
    case (NumberValue(n, _), NumberValue(m, _)) => (n - m) % 0x1_0000_0000_0000_0000 == 0
    case (NumberValue(n, _), DoubleValue(e)) => fl.same(fl.ofInt(n), e)
    case (DoubleValue(d), NumberValue(m, _)) => fl.same(d, fl.ofInt(m))
    case (DoubleValue(d), DoubleValue(e)) => fl.same(d, e)
    case _ => false
  }

  lemma BitsAre(n: int, m: int)
    ensures Bits(n) == Bits(m) <==> (n - m) % 0x1_0000_0000_0000_0000 == 0
  {
  }

  /** Two trees that differ at most in the order of members: each member of one has its like in the other. */
  ghost predicate Alike(fl: Doubles, a: Value, b: Value)
    decreases a, 2
  {
    match a
    case NumberValue(_, _) => SameNumber(fl, a, b)
    case DoubleValue(_) => SameNumber(fl, a, b)
    case ArrayValue(elements) =>
      && b.ArrayValue? && |elements| == |b.elements|
      && forall k | 0 <= k < |elements| :: Alike(fl, elements[k], b.elements[k])
    case ObjectValue(members) =>
      && b.ObjectValue?
      && (forall k | 0 <= k < |members| :: HasLike(fl, a, k, b))
      && (forall i | 0 <= i < |b.members| :: IsLike(fl, a, b, i))
    case _ => a == b
  }

  ghost predicate HasLike(fl: Doubles, a: Value, k: nat, b: Value)
    requires a.ObjectValue? && k < |a.members| && b.ObjectValue?
    decreases a, 1
  {
    exists i | 0 <= i < |b.members| :: LikeMember(fl, a, k, b, i)
  }

  ghost predicate IsLike(fl: Doubles, a: Value, b: Value, i: nat)
    requires a.ObjectValue? && b.ObjectValue? && i < |b.members|
    decreases a, 1
  {
    exists k | 0 <= k < |a.members| :: LikeMember(fl, a, k, b, i)
  }

  ghost predicate LikeMember(fl: Doubles, a: Value, k: nat, b: Value, i: nat)
    requires a.ObjectValue? && k < |a.members| && b.ObjectValue? && i < |b.members|
    decreases a, 0
  {
    a.members[k].name == b.members[i].name && Alike(fl, a.members[k].value, b.members[i].value)
  }

  /** Unique names in every object. */
  predicate Unique(v: Value) {
    match v
    case ArrayValue(elements) => forall k | 0 <= k < |elements| :: Unique(elements[k])
    case ObjectValue(members) =>
      UniqueNames(members) && forall k | 0 <= k < |members| :: Unique(members[k].value)
    case _ => true
  }

  predicate NoDoubles(v: Value) {
    match v
    case DoubleValue(_) => false
    case ArrayValue(elements) => forall k | 0 <= k < |elements| :: NoDoubles(elements[k])
    case ObjectValue(members) => forall k | 0 <= k < |members| :: NoDoubles(members[k].value)
    case _ => true
  }

  /** Unique names and no doubles. */
  predicate Plain(v: Value) {
    Unique(v) && NoDoubles(v)
  }

  predicate UniqueNames(members: seq<Member>) {
    forall i, j | 0 <= i < j < |members| :: members[i].name != members[j].name
  }

  function Names(members: seq<Member>): set<bytes> {
    set i | 0 <= i < |members| :: members[i].name
  }

  lemma {:induction false} NamesCount(members: seq<Member>)
    requires UniqueNames(members)
    ensures |Names(members)| == |members|
  {
    if members != [] {
      var init, last := members[..|members| - 1], members[|members| - 1];
      NamesCount(init);
      assert Names(members) == Names(init) + {last.name};
      assert last.name !in Names(init);
    }
  }

  lemma {:induction false} NamesAtMost(members: seq<Member>)
    ensures |Names(members)| <= |members|
  {
    if members != [] {
      var init, last := members[..|members| - 1], members[|members| - 1];
      NamesAtMost(init);
      assert Names(members) == Names(init) + {last.name};
    }
  }

  lemma SubsetOfSameSize(a: set<bytes>, b: set<bytes>)
    requires a <= b && |b| <= |a|
    ensures a == b
  {
    assert b == a + (b - a);
    assert |b - a| == 0;
  }

  /** A name is found where its only member is. */
  lemma FindUnique(members: seq<Member>, i: nat)
    requires UniqueNames(members) && i < |members|
    ensures FindMember(members, members[i].name) == i
  {
    var f := FindMember(members, members[i].name);
    assert f <= i;
    assert f < |members| && members[f].name == members[i].name;
  }

  lemma {:induction false} ElementsEqualAt(fl: Doubles, a: Value, b: Value, k: nat)
    requires a.ArrayValue? && b.ArrayValue? && |a.elements| == |b.elements| && k <= |a.elements|
    ensures ElementsEqual(fl, a, b, k) <==>
              forall i | k <= i < |a.elements| :: EqualTo(fl, a.elements[i], b.elements[i])
    decreases |a.elements| - k
  {
    if k < |a.elements| {
      ElementsEqualAt(fl, a, b, k + 1);
    }
  }

  /** What the loop over the members looks for at one of them. */
  predicate Found(fl: Doubles, a: Value, b: Value, k: nat)
    requires a.ObjectValue? && b.ObjectValue? && k < |a.members|
  {
    var i := FindMember(b.members, a.members[k].name);
    i < |b.members| && EqualTo(fl, a.members[k].value, b.members[i].value)
  }

  lemma {:induction false} MembersFoundAt(fl: Doubles, a: Value, b: Value, k: nat)
    requires a.ObjectValue? && b.ObjectValue? && k <= |a.members|
    ensures MembersFound(fl, a, b, k) <==> forall i | k <= i < |a.members| :: Found(fl, a, b, i)
    decreases |a.members| - k
  {
    if k < |a.members| {
      MembersFoundAt(fl, a, b, k + 1);
      assert MembersFound(fl, a, b, k) <==> Found(fl, a, b, k) && MembersFound(fl, a, b, k + 1);
    }
  }

  /** On trees with unique names, operator== is equality up to the order of members. */
  lemma {:induction false} EqualIsAlike(fl: Doubles, a: Value, b: Value)
    requires Unique(a) && Unique(b)
    ensures EqualTo(fl, a, b) <==> Alike(fl, a, b)
    decreases a
  {
    if a.ArrayValue? && b.ArrayValue? && |a.elements| == |b.elements| {
      ElementsEqualAt(fl, a, b, 0);
      forall k | 0 <= k < |a.elements| ensures EqualTo(fl, a.elements[k], b.elements[k]) <==> Alike(fl, a.elements[k], b.elements[k]) {
        EqualIsAlike(fl, a.elements[k], b.elements[k]);
      }
    } else if a.ObjectValue? && b.ObjectValue? {
      MembersFoundAt(fl, a, b, 0);
      forall k, i | 0 <= k < |a.members| && 0 <= i < |b.members|
        ensures EqualTo(fl, a.members[k].value, b.members[i].value) <==> Alike(fl, a.members[k].value, b.members[i].value)
      {
        EqualIsAlike(fl, a.members[k].value, b.members[i].value);
      }
      hide EqualTo, Unique;
      if |a.members| == |b.members| && forall k | 0 <= k < |a.members| :: Found(fl, a, b, k) {
        FoundIsAlike(fl, a, b);
      }
      if Alike(fl, a, b) {
        AlikeIsFound(fl, a, b);
      }
    } else if a.NumberValue? && b.NumberValue? {
      BitsAre(a.n, b.n);
    }
  }

  lemma FoundIsAlike(fl: Doubles, a: Value, b: Value)
    requires a.ObjectValue? && b.ObjectValue? && UniqueNames(a.members) && UniqueNames(b.members)
    requires |a.members| == |b.members| && forall k | 0 <= k < |a.members| :: Found(fl, a, b, k)
    requires forall k, i | 0 <= k < |a.members| && 0 <= i < |b.members| ::
               EqualTo(fl, a.members[k].value, b.members[i].value) <==> Alike(fl, a.members[k].value, b.members[i].value)
    ensures Alike(fl, a, b)
  {
    hide EqualTo;
    forall k | 0 <= k < |a.members| ensures HasLike(fl, a, k, b) {
      assert Found(fl, a, b, k);
      assert LikeMember(fl, a, k, b, FindMember(b.members, a.members[k].name));
    }
    forall k | 0 <= k < |a.members| ensures FindMember(b.members, a.members[k].name) < |b.members| {
      assert Found(fl, a, b, k);
    }
    SameNames(a.members, b.members);
    forall i | 0 <= i < |b.members| ensures IsLike(fl, a, b, i) {
      assert b.members[i].name in Names(a.members);
      var k :| 0 <= k < |a.members| && a.members[k].name == b.members[i].name;
      assert Found(fl, a, b, k);
      FindUnique(b.members, i);
      assert LikeMember(fl, a, k, b, i);
    }
  }

  /** As many names, all of them found, leave no other: the code never looks up a right name on the left. */
  lemma SameNames(a: seq<Member>, b: seq<Member>)
    requires UniqueNames(a) && |a| == |b|
    requires forall k | 0 <= k < |a| :: FindMember(b, a[k].name) < |b|
    ensures Names(a) == Names(b)
  {
    NamesCount(a);
    NamesAtMost(b);
    forall n | n in Names(a) ensures n in Names(b) {
      var k :| 0 <= k < |a| && a[k].name == n;
      assert b[FindMember(b, a[k].name)].name == n;
    }
    SubsetOfSameSize(Names(a), Names(b));
  }

  lemma AlikeIsFound(fl: Doubles, a: Value, b: Value)
    requires a.ObjectValue? && b.ObjectValue? && UniqueNames(a.members) && UniqueNames(b.members) && Alike(fl, a, b)
    requires forall k, i | 0 <= k < |a.members| && 0 <= i < |b.members| ::
               EqualTo(fl, a.members[k].value, b.members[i].value) <==> Alike(fl, a.members[k].value, b.members[i].value)
    ensures |a.members| == |b.members| && forall k | 0 <= k < |a.members| :: Found(fl, a, b, k)
  {
    hide EqualTo;
    forall k | 0 <= k < |a.members| ensures Found(fl, a, b, k) {
      assert HasLike(fl, a, k, b);
      var i :| 0 <= i < |b.members| && LikeMember(fl, a, k, b, i);
      FindUnique(b.members, i);
    }
    NamesCount(a.members);
    NamesCount(b.members);
    assert Names(a.members) == Names(b.members) by {
      forall n | n in Names(b.members) ensures n in Names(a.members) {
        var i :| 0 <= i < |b.members| && b.members[i].name == n;
        assert IsLike(fl, a, b, i);
        var k :| 0 <= k < |a.members| && LikeMember(fl, a, k, b, i);
        assert a.members[k].name == n;
      }
      forall n | n in Names(a.members) ensures n in Names(b.members) {
        var k :| 0 <= k < |a.members| && a.members[k].name == n;
        assert HasLike(fl, a, k, b);
        var i :| 0 <= i < |b.members| && LikeMember(fl, a, k, b, i);
        assert b.members[i].name == n;
      }
    }
  }

  // ---------------------------------------------------------------- an equivalence

  lemma {:induction false} AlikeReflexive(fl: Doubles, a: Value)
    requires NoDoubles(a)
    ensures Alike(fl, a, a)
    decreases a
  {
    if a.ArrayValue? {
      forall k | 0 <= k < |a.elements| ensures Alike(fl, a.elements[k], a.elements[k]) {
        AlikeReflexive(fl, a.elements[k]);
      }
    } else if a.ObjectValue? {
      forall k | 0 <= k < |a.members| ensures HasLike(fl, a, k, a) && IsLike(fl, a, a, k) {
        AlikeReflexive(fl, a.members[k].value);
        assert LikeMember(fl, a, k, a, k);
      }
    }
  }

  lemma {:induction false} AlikeSymmetric(fl: Doubles, a: Value, b: Value)
    requires NoDoubles(a) && NoDoubles(b) && Alike(fl, a, b)
    ensures Alike(fl, b, a)
    decreases a
  {
    if a.ArrayValue? {
      forall k | 0 <= k < |a.elements| ensures Alike(fl, b.elements[k], a.elements[k]) {
        AlikeSymmetric(fl, a.elements[k], b.elements[k]);
      }
    } else if a.ObjectValue? {
      forall k, i | 0 <= k < |a.members| && 0 <= i < |b.members| && LikeMember(fl, a, k, b, i) ensures LikeMember(fl, b, i, a, k) {
        AlikeSymmetric(fl, a.members[k].value, b.members[i].value);
      }
      forall k | 0 <= k < |a.members| ensures IsLike(fl, b, a, k) {
        assert HasLike(fl, a, k, b);
        var i :| 0 <= i < |b.members| && LikeMember(fl, a, k, b, i);
        assert LikeMember(fl, b, i, a, k);
      }
      forall i | 0 <= i < |b.members| ensures HasLike(fl, b, i, a) {
        assert IsLike(fl, a, b, i);
        var k :| 0 <= k < |a.members| && LikeMember(fl, a, k, b, i);
        assert LikeMember(fl, b, i, a, k);
      }
    }
  }

  lemma {:induction false} AlikeTransitive(fl: Doubles, a: Value, b: Value, c: Value)
    requires NoDoubles(a) && NoDoubles(b) && NoDoubles(c) && Alike(fl, a, b) && Alike(fl, b, c)
    ensures Alike(fl, a, c)
    decreases a
  {
    if a.ArrayValue? {
      forall k | 0 <= k < |a.elements| ensures Alike(fl, a.elements[k], c.elements[k]) {
        AlikeTransitive(fl, a.elements[k], b.elements[k], c.elements[k]);
      }
    } else if a.ObjectValue? {
      forall k, i, j | 0 <= k < |a.members| && 0 <= i < |b.members| && 0 <= j < |c.members|
                       && LikeMember(fl, a, k, b, i) && LikeMember(fl, b, i, c, j)
        ensures LikeMember(fl, a, k, c, j)
      {
        AlikeTransitive(fl, a.members[k].value, b.members[i].value, c.members[j].value);
      }
      forall k | 0 <= k < |a.members| ensures HasLike(fl, a, k, c) {
        assert HasLike(fl, a, k, b);
        var i :| 0 <= i < |b.members| && LikeMember(fl, a, k, b, i);
        assert HasLike(fl, b, i, c);
        var j :| 0 <= j < |c.members| && LikeMember(fl, b, i, c, j);
        assert LikeMember(fl, a, k, c, j);
      }
      forall j | 0 <= j < |c.members| ensures IsLike(fl, a, c, j) {
        assert IsLike(fl, b, c, j);
        var i :| 0 <= i < |b.members| && LikeMember(fl, b, i, c, j);
        assert IsLike(fl, a, b, i);
        var k :| 0 <= k < |a.members| && LikeMember(fl, a, k, b, i);
        assert LikeMember(fl, a, k, c, j);
      }
    }
  }

  /** On plain trees, operator== is an equivalence. */
  lemma Equivalence(fl: Doubles, a: Value, b: Value, c: Value)
    requires Plain(a) && Plain(b) && Plain(c)
    ensures EqualTo(fl, a, a)
    ensures EqualTo(fl, a, b) ==> EqualTo(fl, b, a)
    ensures EqualTo(fl, a, b) && EqualTo(fl, b, c) ==> EqualTo(fl, a, c)
  {
    hide EqualTo, Alike, Unique, NoDoubles;
    EqualIsAlike(fl, a, a);
    AlikeReflexive(fl, a);
    EqualIsAlike(fl, a, b);
    EqualIsAlike(fl, b, a);
    EqualIsAlike(fl, b, c);
    EqualIsAlike(fl, a, c);
    if Alike(fl, a, b) {
      AlikeSymmetric(fl, a, b);
      if Alike(fl, b, c) {
        AlikeTransitive(fl, a, b, c);
      }
    }
  }

  /** Integers as they are kept are told apart unless one is the other's wrap-around. */
  lemma BitsTellApart(n: int, m: int)
    requires -0x8000_0000_0000_0000 <= n < 0x1_0000_0000_0000_0000
    requires -0x8000_0000_0000_0000 <= m < 0x1_0000_0000_0000_0000
    ensures (Bits(n) == Bits(m) <==> n == m) <==> n - m != 0x1_0000_0000_0000_0000 && m - n != 0x1_0000_0000_0000_0000
  {
  }

  // ---------------------------------------------------------------- repeated names

  /** An object of plain values, whose own names may be repeated. */
  predicate PlainValues(a: Value) {
    a.ObjectValue? && forall k | 0 <= k < |a.members| :: Plain(a.members[k].value)
  }

  /** Whether two members share a name and have values that differ. */
  ghost predicate Clashes(fl: Doubles, a: Value)
    requires a.ObjectValue?
  {
    exists i, j | 0 <= i < j < |a.members| :: Clash(fl, a, i, j)
  }

  ghost predicate Clash(fl: Doubles, a: Value, i: nat, j: nat)
    requires a.ObjectValue? && i < |a.members| && j < |a.members|
  {
    a.members[i].name == a.members[j].name && !Alike(fl, a.members[i].value, a.members[j].value)
  }

  /** Plain trees that equal the same value are alike, whatever names it repeats. */
  lemma {:induction false} SameRight(fl: Doubles, a: Value, c: Value, v: Value)
    requires Plain(a) && Plain(c) && NoDoubles(v) && EqualTo(fl, a, v) && EqualTo(fl, c, v)
    ensures Alike(fl, a, c)
    decreases v
  {
    if v.ArrayValue? {
      ElementsEqualAt(fl, a, v, 0);
      ElementsEqualAt(fl, c, v, 0);
      forall k | 0 <= k < |v.elements| ensures Alike(fl, a.elements[k], c.elements[k]) {
        SameRight(fl, a.elements[k], c.elements[k], v.elements[k]);
      }
    } else if v.ObjectValue? {
      MembersFoundAt(fl, a, v, 0);
      MembersFoundAt(fl, c, v, 0);
      forall k, j | 0 <= k < |a.members| && 0 <= j < |c.members| && a.members[k].name == c.members[j].name
        ensures LikeMember(fl, a, k, c, j)
      {
        assert Found(fl, a, v, k) && Found(fl, c, v, j);
        SameRight(fl, a.members[k].value, c.members[j].value, v.members[FindMember(v.members, a.members[k].name)].value);
      }
      hide EqualTo, Unique, NoDoubles;
      FoundNames(fl, a, v);
      FoundNames(fl, c, v);
      LikeByName(fl, a, c);
    }
  }

  lemma FoundNames(fl: Doubles, a: Value, b: Value)
    requires a.ObjectValue? && b.ObjectValue? && UniqueNames(a.members) && |a.members| == |b.members|
    requires forall k | 0 <= k < |a.members| :: Found(fl, a, b, k)
    ensures Names(a.members) == Names(b.members)
  {
    hide EqualTo;
    forall k | 0 <= k < |a.members| ensures FindMember(b.members, a.members[k].name) < |b.members| {
      assert Found(fl, a, b, k);
    }
    SameNames(a.members, b.members);
  }

  lemma LikeByName(fl: Doubles, a: Value, c: Value)
    requires a.ObjectValue? && c.ObjectValue? && Names(a.members) == Names(c.members)
    requires forall k, j | 0 <= k < |a.members| && 0 <= j < |c.members| && a.members[k].name == c.members[j].name ::
               LikeMember(fl, a, k, c, j)
    ensures Alike(fl, a, c)
  {
    forall k | 0 <= k < |a.members| ensures HasLike(fl, a, k, c) {
      assert a.members[k].name in Names(c.members);
      var j :| 0 <= j < |c.members| && c.members[j].name == a.members[k].name;
      assert LikeMember(fl, a, k, c, j);
    }
    forall j | 0 <= j < |c.members| ensures IsLike(fl, a, c, j) {
      assert c.members[j].name in Names(a.members);
      var k :| 0 <= k < |a.members| && a.members[k].name == c.members[j].name;
      assert LikeMember(fl, a, k, c, j);
    }
  }

  /** Members that share a name are compared with one and the same member. */
  lemma ClashingEqualsNothing(fl: Doubles, a: Value, b: Value)
    requires PlainValues(a) && NoDoubles(b) && Clashes(fl, a)
    ensures !EqualTo(fl, a, b)
  {
    hide Unique, Alike;
    if EqualTo(fl, a, b) {
      MembersFoundAt(fl, a, b, 0);
      var i, j :| 0 <= i < j < |a.members| && Clash(fl, a, i, j);
      assert Found(fl, a, b, i) && Found(fl, a, b, j);
      SameRight(fl, a.members[i].value, a.members[j].value, b.members[FindMember(b.members, a.members[i].name)].value);
      assert false;
    }
  }

  lemma AlikeIfNoClash(fl: Doubles, a: Value, i: nat, j: nat)
    requires PlainValues(a) && !Clashes(fl, a) && i < |a.members| && j < |a.members|
    requires a.members[i].name == a.members[j].name
    ensures Alike(fl, a.members[i].value, a.members[j].value)
  {
    hide Alike, Unique, NoDoubles;
    if i < j {
      assert !Clash(fl, a, i, j);
    } else if j < i {
      assert !Clash(fl, a, j, i);
      AlikeSymmetric(fl, a.members[j].value, a.members[i].value);
    } else {
      AlikeReflexive(fl, a.members[i].value);
    }
  }

  /** Where the note holds and where it does not: an object equals nothing exactly if two of its members share a name but
      not a value, and equals itself otherwise. Doubles are left out on the right, as one can equal several integers. */
  lemma RepeatedNames(fl: Doubles, a: Value)
    requires PlainValues(a)
    ensures Clashes(fl, a) <==> forall b | NoDoubles(b) :: !EqualTo(fl, a, b)
    ensures Clashes(fl, a) <==> !EqualTo(fl, a, a)
  {
    if Clashes(fl, a) {
      forall b | NoDoubles(b) ensures !EqualTo(fl, a, b) {
        ClashingEqualsNothing(fl, a, b);
      }
    } else {
      forall k | 0 <= k < |a.members| ensures Found(fl, a, a, k) {
        var i := FindMember(a.members, a.members[k].name);
        AlikeIfNoClash(fl, a, k, i);
        EqualIsAlike(fl, a.members[k].value, a.members[i].value);
      }
      MembersFoundAt(fl, a, a, 0);
      assert EqualTo(fl, a, a);
    }
    assert NoDoubles(a);
  }

  /** When the order of the operands counts: the right one has a name that the left one lacks, or clashes. */
  lemma OrderCounts(fl: Doubles, a: Value, b: Value)
    requires PlainValues(a) && PlainValues(b) && EqualTo(fl, a, b)
    ensures !EqualTo(fl, b, a) <==> !(Names(b.members) <= Names(a.members)) || Clashes(fl, b)
  {
    hide Unique, Alike, Clashes;
    RepeatedNames(fl, b);
    MembersFoundAt(fl, a, b, 0);
    MembersFoundAt(fl, b, a, 0);
    if EqualTo(fl, b, a) {
      forall n | n in Names(b.members) ensures n in Names(a.members) {
        var i :| 0 <= i < |b.members| && b.members[i].name == n;
        assert Found(fl, b, a, i);
      }
    } else if Names(b.members) <= Names(a.members) && !Clashes(fl, b) {
      forall i | 0 <= i < |b.members| ensures Found(fl, b, a, i) {
        FoundBack(fl, a, b, i);
      }
    }
  }

  lemma FoundBack(fl: Doubles, a: Value, b: Value, i: nat)
    requires PlainValues(a) && PlainValues(b) && i < |b.members| && !Clashes(fl, b)
    requires forall k | 0 <= k < |a.members| :: Found(fl, a, b, k)
    requires b.members[i].name in Names(a.members)
    ensures Found(fl, b, a, i)
  {
    hide Unique, Alike, EqualTo, Clashes;
    var f := FindMember(a.members, b.members[i].name);
    assert f < |a.members|;
    assert Found(fl, a, b, f);
    var g := FindMember(b.members, b.members[i].name);
    var x, y, z := a.members[f].value, b.members[g].value, b.members[i].value;
    EqualIsAlike(fl, x, y);
    AlikeIfNoClash(fl, b, g, i);
    AlikeTransitive(fl, x, y, z);
    AlikeSymmetric(fl, x, z);
    EqualIsAlike(fl, z, x);
  }

  /** Why doubles are left out: integers that one double equals can share a name and equal it both. */
  lemma DoublesBlur(fl: Doubles, n: int64, m: int64, d: Float)
    requires n != m && fl.same(fl.ofInt(n), d) && fl.same(fl.ofInt(m), d)
    ensures var a := ObjectValue([Member([], OfInt64(n)), Member([], OfInt64(m))]);
            var b := ObjectValue([Member([], DoubleValue(d)), Member([0], NullValue)]);
            Clashes(fl, a) && EqualTo(fl, a, b)
  {
    var a := ObjectValue([Member([], OfInt64(n)), Member([], OfInt64(m))]);
    var b := ObjectValue([Member([], DoubleValue(d)), Member([0], NullValue)]);
    assert Clash(fl, a, 0, 1);
    MembersFoundAt(fl, a, b, 0);
  }

  /** Two witnesses: a number can equal another, and a repeated name makes the order of the operands count.
      The note that such an object equals nothing is not what the code does. */
  lemma NotPlain(fl: Doubles)
    ensures EqualTo(fl, OfInt(-1), OfUint64(0xFFFF_FFFF_FFFF_FFFF))
    ensures var twice := ObjectValue([Member([], NullValue), Member([], NullValue)]);
            var once := ObjectValue([Member([], NullValue), Member([0], NullValue)]);
            EqualTo(fl, twice, once) && !EqualTo(fl, once, twice) && EqualTo(fl, twice, twice)
  {
    var twice := ObjectValue([Member([], NullValue), Member([], NullValue)]);
    var once := ObjectValue([Member([], NullValue), Member([0], NullValue)]);
    MembersFoundAt(fl, twice, once, 0);
    MembersFoundAt(fl, once, twice, 0);
    MembersFoundAt(fl, twice, twice, 0);
    assert !Found(fl, once, twice, 1);
  }
}
