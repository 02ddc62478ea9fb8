/** Comparing two trees, and what it means for them to be equal. */
module Compare {
  import opened Bytes
  import opened Wrappers
  import opened Nodes
  import opened Trees

  const DBL_EPSILON: real := 1.0 / 4503599627370496.0

  function Abs(x: real): real {
    if x < 0.0 then -x else x
  }

  /** `compare_double`, on exact values. */
  predicate CompareDouble(x: real, y: real) {
    Abs(x - y) <= (if Abs(x) > Abs(y) then Abs(x) else Abs(y)) * DBL_EPSILON
  }

  /** Up to this magnitude, neighbouring integers are apart by at least the tolerance. */
  const BORDER: nat := 4503599627370496

  predicate IsInteger(x: real, n: nat) {
    x == x.Floor as real && -(n as real) <= x <= n as real
  }

  /** At the border itself, and only there, an integer equals its neighbour nearer to zero. */
  function Rounded(x: real): real {
    if x == BORDER as real then x - 1.0 else if x == -(BORDER as real) then x + 1.0 else x
  }

  function AbsInt(m: int): nat {
    if m < 0 then -m else m
  }

  /** The tolerance, multiplied out. */
  lemma CompareDoubleOfIntegers(m: int, n: int)
    ensures CompareDouble(m as real, n as real) <==>
            BORDER * AbsInt(m - n) <= if AbsInt(m) > AbsInt(n) then AbsInt(m) else AbsInt(n)
  {
    var x, y := m as real, n as real;
    assert Abs(x) == AbsInt(m) as real && Abs(y) == AbsInt(n) as real;
    assert x - y == (m - n) as real;
    assert Abs(x - y) == AbsInt(m - n) as real;
    var bound := if AbsInt(m) > AbsInt(n) then AbsInt(m) else AbsInt(n);
    assert (if Abs(x) > Abs(y) then Abs(x) else Abs(y)) == bound as real;
    assert (bound as real) * DBL_EPSILON * (BORDER as real) == bound as real;
    assert (BORDER * AbsInt(m - n)) as real == (BORDER as real) * Abs(x - y);
  }

  /** Within the border the tolerance is equality, but for the two integers at the border. */
  lemma IntegersCompareExactly(x: real, y: real, n: nat)
    requires IsInteger(x, n) && IsInteger(y, n) && n <= BORDER
    ensures CompareDouble(x, y) <==> Rounded(x) == Rounded(y)
    ensures n < BORDER ==> (CompareDouble(x, y) <==> x == y)
  {
    CompareDoubleOfIntegers(x.Floor, y.Floor);
  }

  /** Beyond the border there are three integers of which each equals the next, but not the one after. */
  lemma BorderIsCrossed()
    ensures CompareDouble((BORDER - 1) as real, BORDER as real)
    ensures CompareDouble(BORDER as real, (BORDER + 1) as real)
    ensures !CompareDouble((BORDER - 1) as real, (BORDER + 1) as real)
  {
    CompareDoubleOfIntegers(BORDER - 1, BORDER);
    CompareDoubleOfIntegers(BORDER, BORDER + 1);
    CompareDoubleOfIntegers(BORDER - 1, BORDER + 1);
  }

  /** `tolower` in the C locale. */
  function ToLower(b: byte): byte {
    if 65 <= b <= 90 then b + 32 else b
  }

  /** `ABCDEFGHIJKLMNOPQRSTUVWXYZ` and `abcdefghijklmnopqrstuvwxyz`. */
  const CAPITALS: string := "ABCDEFGHIJKLMNOPQRSTUVWXYZ"
  const SMALL: string := "abcdefghijklmnopqrstuvwxyz"

  /** The 26 capital letters go to their small ones, every other byte stays. */
  lemma LowerCase(b: byte)
    ensures forall i :: 0 <= i < 26 && CAPITALS[i] as int == b ==> ToLower(b) == SMALL[i] as int
    ensures (forall i :: 0 <= i < 26 ==> CAPITALS[i] as int != b) ==> ToLower(b) == b
  {
    assert |CAPITALS| == 26 && |SMALL| == 26;
    Alphabet(b);
  }

  lemma Alphabet(b: byte)
    ensures forall i :: 0 <= i < 26 ==> CAPITALS[i] as int == 65 + i && SMALL[i] as int == 97 + i
    ensures 65 <= b <= 90 ==> CAPITALS[b - 65] as int == b
  {
  }

  function Lower(s: bytes): (r: bytes)
    ensures |r| == |s| && forall i :: 0 <= i < |s| ==> r[i] == ToLower(s[i])
  {
    seq(|s|, i requires 0 <= i < |s| => ToLower(s[i]))
  }

  /** `case_insensitive_strcmp`: of each text only the C string at its start is looked at. */
  function CaseInsensitiveStrcmp(s: bytes, t: bytes): int {
    var c, d := if s == [] then NUL else ToLower(s[0]), if t == [] then NUL else ToLower(t[0]);
    if c != d then c as int - d as int
    else if c == NUL then 0
    else CaseInsensitiveStrcmp(s[1..], t[1..])
  }

  lemma {:induction false} StrcmpComparesLower(s: bytes, t: bytes)
    ensures CaseInsensitiveStrcmp(s, t) == 0 <==> Lower(CString(s)) == Lower(CString(t))
  {
    hide Lower, CString;
    LowerFirst(s);
    LowerFirst(t);
    if s != [] && t != [] && s[0] != NUL && t[0] != NUL {
      StrcmpComparesLower(s[1..], t[1..]);
      var u, v := Lower(CString(s)), Lower(CString(t));
      assert u[1..] == Lower(CString(s[1..])) && v[1..] == Lower(CString(t[1..]));
    }
  }

  lemma LowerFirst(s: bytes)
    ensures Lower(CString(s)) ==
            if s == [] || s[0] == NUL then [] else [ToLower(s[0])] + Lower(CString(s[1..]))
  {
  }

  predicate SameName(name: bytes, key: bytes, caseSensitive: bool) {
    if caseSensitive then CString(name) == CString(key) else CaseInsensitiveStrcmp(name, key) == 0
  }

  /** `get_object_item` from the `i`-th child on: where the first child of that name is. A search by exact
      name ends at a child without a name; the other kind of search passes over it. */
  function GetObjectItem(kids: seq<Tree>, name: Option<bytes>, caseSensitive: bool, i: nat := 0): (r: Option<nat>)
    ensures r.Some? ==> i <= r.value < |kids|
    decreases |kids| - i
  {
    if name.None? || i >= |kids| then None
    else if kids[i].key.Some? && SameName(name.value, kids[i].key.value, caseSensitive) then Some(i)
    else if kids[i].key.None? && caseSensitive then None
    else GetObjectItem(kids, name, caseSensitive, i + 1)
  }

  lemma HeightOfKid(t: Tree, i: nat)
    requires i < |t.kids|
    ensures Height(t.kids[i]) < Height(t)
  {
    HeightAt(t.kids, i);
  }

  lemma HeightOfKids(t: Tree)
    ensures forall i :: 0 <= i < |t.kids| ==> Height(t.kids[i]) < Height(t)
  {
    forall i | 0 <= i < |t.kids| ensures Height(t.kids[i]) < Height(t) { HeightOfKid(t, i); }
  }

  /** `cJSON_Compare` on two trees that share no node. */
  predicate Compare(a: Tree, b: Tree, caseSensitive: bool)
    decreases Height(a) + Height(b), 1
  {
    match (a.payload, b.payload)
    case (NullItem, NullItem) => true
    case (FalseItem, FalseItem) => true
    case (TrueItem, TrueItem) => true
    case (NumberItem(x), NumberItem(y)) => CompareDouble(x, y)
    case (StringItem(s), StringItem(t)) => CString(s) == CString(t)
    case (ArrayItem, ArrayItem) =>
      HeightOfKids(a);
      HeightOfKids(b);
      |a.kids| == |b.kids| && forall i :: 0 <= i < |a.kids| ==> Compare(a.kids[i], b.kids[i], caseSensitive)
    case (ObjectItem, ObjectItem) => Covers(a, b, caseSensitive) && Covers(b, a, caseSensitive)
    case _ => false
  }

  /** One pass over the members of `a`: each has an equal one in `b`. */
  predicate Covers(a: Tree, b: Tree, caseSensitive: bool)
    decreases Height(a) + Height(b), 0
  {
    HeightOfKids(a);
    HeightOfKids(b);
    forall i :: 0 <= i < |a.kids| ==>
      var at := GetObjectItem(b.kids, a.kids[i].key, caseSensitive);
      at.Some? && Compare(a.kids[i], b.kids[at.value], caseSensitive)
  }

  // ----- what a tree means -----

  /** Objects are tables from names, folded when case does not matter, to values. */
  datatype Value =
    | Nothing
    | Truth(b: bool)
    | Num(value: real)
    | Text(text: bytes)
    | List(items: seq<Value>)
    | Table(entries: map<bytes, Value>)

  function Folded(name: bytes, caseSensitive: bool): bytes {
    if caseSensitive then CString(name) else Lower(CString(name))
  }

  predicate Has(kids: seq<Tree>, i: int, name: bytes, caseSensitive: bool) {
    0 <= i < |kids| && kids[i].key.Some? && Folded(kids[i].key.value, caseSensitive) == name
  }

  ghost predicate IsFirst(kids: seq<Tree>, i: int, name: bytes, caseSensitive: bool) {
    Has(kids, i, name, caseSensitive) && forall j :: 0 <= j < i ==> !Has(kids, j, name, caseSensitive)
  }

  ghost function Names(kids: seq<Tree>, caseSensitive: bool): set<bytes> {
    set i | 0 <= i < |kids| && kids[i].key.Some? :: Folded(kids[i].key.value, caseSensitive)
  }

  lemma {:induction false} FirstExists(kids: seq<Tree>, i: nat, name: bytes, caseSensitive: bool)
    requires Has(kids, i, name, caseSensitive)
    ensures exists j :: IsFirst(kids, j, name, caseSensitive)
  {
    if j :| 0 <= j < i && Has(kids, j, name, caseSensitive) {
      FirstExists(kids, j, name, caseSensitive);
    } else {
      assert IsFirst(kids, i, name, caseSensitive);
    }
  }

  lemma NamesAreHad(kids: seq<Tree>, name: bytes, caseSensitive: bool)
    ensures name in Names(kids, caseSensitive) <==> exists i :: Has(kids, i, name, caseSensitive)
  {
    if name in Names(kids, caseSensitive) {
      var i :| 0 <= i < |kids| && kids[i].key.Some? && Folded(kids[i].key.value, caseSensitive) == name;
      assert Has(kids, i, name, caseSensitive);
    }
  }

  lemma FirstIs(kids: seq<Tree>, i: nat, name: bytes, caseSensitive: bool)
    requires IsFirst(kids, i, name, caseSensitive)
    ensures name in Names(kids, caseSensitive) && First(kids, name, caseSensitive) == i
  {
    NamesAreHad(kids, name, caseSensitive);
  }

  ghost function First(kids: seq<Tree>, name: bytes, caseSensitive: bool): (i: nat)
    requires name in Names(kids, caseSensitive)
    ensures i < |kids| && IsFirst(kids, i, name, caseSensitive)
  {
    NamesAreHad(kids, name, caseSensitive);
    var k: nat :| Has(kids, k, name, caseSensitive);
    FirstExists(kids, k, name, caseSensitive);
    var i :| IsFirst(kids, i, name, caseSensitive);
    i
  }

  ghost function Meaning(t: Tree, caseSensitive: bool): Value
    decreases Height(t)
  {
    HeightOfKids(t);
    match t.payload
    case NullItem => Nothing
    case FalseItem => Truth(false)
    case TrueItem => Truth(true)
    case NumberItem(x) => Num(Rounded(x))
    case StringItem(s) => Text(CString(s))
    case ArrayItem => List(seq(|t.kids|, i requires 0 <= i < |t.kids| => Meaning(t.kids[i], caseSensitive)))
    case ObjectItem =>
      Table(map name | name in Names(t.kids, caseSensitive) ::
        Meaning(t.kids[First(t.kids, name, caseSensitive)], caseSensitive))
  }

  /** Every member of every object has a name, and members of one name in one object mean the same. */
  ghost predicate Consistent(t: Tree, caseSensitive: bool)
    decreases Height(t)
  {
    HeightOfKids(t);
    && (t.payload.ArrayItem? || t.payload.ObjectItem? ==>
          forall i :: 0 <= i < |t.kids| ==> Consistent(t.kids[i], caseSensitive))
    && (t.payload.ObjectItem? ==>
          && (forall i :: 0 <= i < |t.kids| ==> t.kids[i].key.Some?)
          && forall i, j :: 0 <= i < j < |t.kids| && SameFolded(t.kids[i], t.kids[j], caseSensitive) ==>
               Meaning(t.kids[i], caseSensitive) == Meaning(t.kids[j], caseSensitive))
  }

  predicate SameFolded(k: Tree, l: Tree, caseSensitive: bool) {
    k.key.Some? && l.key.Some? && Folded(k.key.value, caseSensitive) == Folded(l.key.value, caseSensitive)
  }

  /** All numbers are integers of magnitude at most `n`. */
  ghost predicate Within(t: Tree, n: nat)
    decreases Height(t)
  {
    HeightOfKids(t);
    && (t.payload.NumberItem? ==> IsInteger(t.payload.value, n))
    && forall i :: 0 <= i < |t.kids| ==> Within(t.kids[i], n)
  }

  // ----- searching by name -----

  lemma SameNameIsFolded(name: bytes, key: bytes, caseSensitive: bool)
    ensures SameName(name, key, caseSensitive) <==> Folded(name, caseSensitive) == Folded(key, caseSensitive)
  {
    if !caseSensitive {
      StrcmpComparesLower(name, key);
    }
  }

  /** The first child of that name, if the search gets there: one by exact name must not meet a child without a
      name before. */
  ghost predicate IsReached(kids: seq<Tree>, k: int, folded: bytes, caseSensitive: bool) {
    IsFirst(kids, k, folded, caseSensitive) && (caseSensitive ==> forall j :: 0 <= j < k ==> kids[j].key.Some?)
  }

  lemma {:induction false} SearchFindsFirst(kids: seq<Tree>, name: bytes, caseSensitive: bool, i: nat)
    requires i <= |kids| && forall j :: 0 <= j < i ==> !Has(kids, j, Folded(name, caseSensitive), caseSensitive)
    requires caseSensitive ==> forall j :: 0 <= j < i ==> kids[j].key.Some?
    ensures match GetObjectItem(kids, Some(name), caseSensitive, i)
            case Some(k) => IsReached(kids, k, Folded(name, caseSensitive), caseSensitive)
            case None => forall k :: !IsReached(kids, k, Folded(name, caseSensitive), caseSensitive)
    decreases |kids| - i
  {
    hide Folded;
    if i < |kids| {
      if kids[i].key.Some? {
        SameNameIsFolded(name, kids[i].key.value, caseSensitive);
      }
      if !Has(kids, i, Folded(name, caseSensitive), caseSensitive) && (kids[i].key.Some? || !caseSensitive) {
        SearchFindsFirst(kids, name, caseSensitive, i + 1);
      }
    }
  }

  /** Among children that all have names, the search finds the first of that name. */
  lemma SearchAmongNamed(kids: seq<Tree>, name: bytes, caseSensitive: bool)
    requires AllNamed(kids)
    ensures var r, folded := GetObjectItem(kids, Some(name), caseSensitive), Folded(name, caseSensitive);
            && (r.Some? <==> folded in Names(kids, caseSensitive))
            && (r.Some? ==> r.value == First(kids, folded, caseSensitive))
  {
    hide GetObjectItem, Folded;
    var r, folded := GetObjectItem(kids, Some(name), caseSensitive), Folded(name, caseSensitive);
    if folded in Names(kids, caseSensitive) {
      assert IsReached(kids, First(kids, folded, caseSensitive), folded, caseSensitive);
    }
    SearchFindsFirst(kids, name, caseSensitive, 0);
    if r.Some? {
      FirstIs(kids, r.value, folded, caseSensitive);
    }
  }

  ghost predicate AllNamed(kids: seq<Tree>) {
    forall i :: 0 <= i < |kids| ==> kids[i].key.Some?
  }

  /** What one pass says of the `i`-th member of `a`. */
  ghost predicate Covered(a: Tree, b: Tree, i: nat, caseSensitive: bool)
    requires i < |a.kids| && a.kids[i].key.Some?
  {
    var name := Folded(a.kids[i].key.value, caseSensitive);
    name in Names(b.kids, caseSensitive) &&
    var other := b.kids[First(b.kids, name, caseSensitive)];
    Consistent(a.kids[i], caseSensitive) && Consistent(other, caseSensitive) &&
    Meaning(a.kids[i], caseSensitive) == Meaning(other, caseSensitive)
  }

  lemma {:induction false} CoversIsMeaning(a: Tree, b: Tree, caseSensitive: bool)
    requires Within(a, BORDER) && Within(b, BORDER) && AllNamed(a.kids) && AllNamed(b.kids)
    ensures Covers(a, b, caseSensitive) <==> forall i: nat :: i < |a.kids| ==> Covered(a, b, i, caseSensitive)
    decreases Height(a) + Height(b), 0
  {
    HeightOfKids(a);
    HeightOfKids(b);
    forall i: nat | i < |a.kids|
      ensures var at := GetObjectItem(b.kids, a.kids[i].key, caseSensitive);
              at.Some? && Compare(a.kids[i], b.kids[at.value], caseSensitive) <==> Covered(a, b, i, caseSensitive)
    {
      var name := a.kids[i].key.value;
      SearchAmongNamed(b.kids, name, caseSensitive);
      var folded := Folded(name, caseSensitive);
      if folded in Names(b.kids, caseSensitive) {
        CompareIsMeaning(a.kids[i], b.kids[First(b.kids, folded, caseSensitive)], caseSensitive);
      }
    }
  }

  lemma CoversNeedsNames(a: Tree, b: Tree, caseSensitive: bool)
    requires Covers(a, b, caseSensitive)
    ensures AllNamed(a.kids)
  {
    forall i | 0 <= i < |a.kids|
      ensures a.kids[i].key.Some?
    {
      assert GetObjectItem(b.kids, a.kids[i].key, caseSensitive).Some?;
    }
  }

  ghost function Entries(t: Tree, caseSensitive: bool): map<bytes, Value> {
    map name | name in Names(t.kids, caseSensitive) ::
      Meaning(t.kids[First(t.kids, name, caseSensitive)], caseSensitive)
  }

  lemma NameOf(kids: seq<Tree>, i: nat, caseSensitive: bool)
    requires i < |kids| && kids[i].key.Some?
    ensures var name := Folded(kids[i].key.value, caseSensitive);
            name in Names(kids, caseSensitive) && Has(kids, First(kids, name, caseSensitive), name, caseSensitive) &&
            First(kids, name, caseSensitive) <= i
  {
    var name := Folded(kids[i].key.value, caseSensitive);
    assert Has(kids, i, name, caseSensitive);
    NamesAreHad(kids, name, caseSensitive);
  }

  /** Both passes together say that the tables are the same, and that duplicates mean the same. */
  lemma TablesAgree(a: Tree, b: Tree, caseSensitive: bool)
    requires a.payload.ObjectItem? && b.payload.ObjectItem? && AllNamed(a.kids) && AllNamed(b.kids)
    ensures (forall i: nat :: i < |a.kids| ==> Covered(a, b, i, caseSensitive)) &&
            (forall i: nat :: i < |b.kids| ==> Covered(b, a, i, caseSensitive))
       <==> Consistent(a, caseSensitive) && Consistent(b, caseSensitive) &&
            Entries(a, caseSensitive) == Entries(b, caseSensitive)
  {
    hide Consistent, Covered, Names;
    if (forall i: nat :: i < |a.kids| ==> Covered(a, b, i, caseSensitive)) &&
       (forall i: nat :: i < |b.kids| ==> Covered(b, a, i, caseSensitive)) {
      CoveredIsConsistent(a, b, caseSensitive);
      CoveredIsConsistent(b, a, caseSensitive);
      CoveredEntries(a, b, caseSensitive);
      CoveredEntries(b, a, caseSensitive);
    }
    if Consistent(a, caseSensitive) && Consistent(b, caseSensitive) &&
       Entries(a, caseSensitive) == Entries(b, caseSensitive) {
      ConsistentIsCovered(a, b, caseSensitive);
      ConsistentIsCovered(b, a, caseSensitive);
    }
  }

  lemma CoveredEntries(a: Tree, b: Tree, caseSensitive: bool)
    requires AllNamed(a.kids) && AllNamed(b.kids)
    requires forall i: nat :: i < |a.kids| ==> Covered(a, b, i, caseSensitive)
    ensures forall name :: name in Names(a.kids, caseSensitive) ==>
              name in Names(b.kids, caseSensitive) &&
              Entries(a, caseSensitive)[name] == Entries(b, caseSensitive)[name]
  {
    forall name | name in Names(a.kids, caseSensitive)
      ensures name in Names(b.kids, caseSensitive)
      ensures Entries(a, caseSensitive)[name] == Entries(b, caseSensitive)[name]
    {
      assert Covered(a, b, First(a.kids, name, caseSensitive), caseSensitive);
    }
  }

  lemma CoveredIsConsistent(a: Tree, b: Tree, caseSensitive: bool)
    requires a.payload.ObjectItem? && AllNamed(a.kids)
    requires forall i: nat :: i < |a.kids| ==> Covered(a, b, i, caseSensitive)
    ensures Consistent(a, caseSensitive)
  {
    forall i: nat | i < |a.kids|
      ensures Consistent(a.kids[i], caseSensitive)
      ensures var name := Folded(a.kids[i].key.value, caseSensitive);
              name in Names(b.kids, caseSensitive) &&
              Meaning(a.kids[i], caseSensitive) == Meaning(b.kids[First(b.kids, name, caseSensitive)], caseSensitive)
    {
      assert Covered(a, b, i, caseSensitive);
    }
  }

  lemma ConsistentIsCovered(a: Tree, b: Tree, caseSensitive: bool)
    requires a.payload.ObjectItem? && b.payload.ObjectItem? && AllNamed(a.kids)
    requires Consistent(a, caseSensitive) && Consistent(b, caseSensitive)
    requires Entries(a, caseSensitive) == Entries(b, caseSensitive)
    ensures forall i: nat :: i < |a.kids| ==> Covered(a, b, i, caseSensitive)
  {
    hide Folded, Meaning, IsFirst;
    forall i: nat | i < |a.kids|
      ensures Covered(a, b, i, caseSensitive)
    {
      NameOf(a.kids, i, caseSensitive);
      var name := Folded(a.kids[i].key.value, caseSensitive);
      var first := First(a.kids, name, caseSensitive);
      assert first < i ==> SameFolded(a.kids[first], a.kids[i], caseSensitive);
      assert name in Entries(a, caseSensitive) && name in Entries(b, caseSensitive);
      assert Entries(b, caseSensitive)[name] == Entries(a, caseSensitive)[name];
      assert Entries(a, caseSensitive)[name] == Meaning(a.kids[first], caseSensitive);
    }
  }

  /** Comparing two trees decides whether they mean the same and are both consistent. */
  lemma {:induction false} CompareIsMeaning(a: Tree, b: Tree, caseSensitive: bool)
    requires Within(a, BORDER) && Within(b, BORDER)
    ensures Compare(a, b, caseSensitive) <==>
            Consistent(a, caseSensitive) && Consistent(b, caseSensitive) &&
            Meaning(a, caseSensitive) == Meaning(b, caseSensitive)
    decreases Height(a) + Height(b), 1
  {
    match (a.payload, b.payload)
    case (NumberItem(x), NumberItem(y)) =>
      IntegersCompareExactly(x, y, BORDER);
    case (ArrayItem, ArrayItem) =>
      ArraysCompareMeaning(a, b, caseSensitive);
    case (ObjectItem, ObjectItem) =>
      if Compare(a, b, caseSensitive) {
        CoversNeedsNames(a, b, caseSensitive);
        CoversNeedsNames(b, a, caseSensitive);
      }
      if AllNamed(a.kids) && AllNamed(b.kids) {
        CoversIsMeaning(a, b, caseSensitive);
        CoversIsMeaning(b, a, caseSensitive);
        TablesAgree(a, b, caseSensitive);
        assert Meaning(a, caseSensitive) == Table(Entries(a, caseSensitive));
        assert Meaning(b, caseSensitive) == Table(Entries(b, caseSensitive));
      }
    case _ =>
  }

  lemma {:induction false} ArraysCompareMeaning(a: Tree, b: Tree, caseSensitive: bool)
    requires Within(a, BORDER) && Within(b, BORDER) && a.payload.ArrayItem? && b.payload.ArrayItem?
    ensures Compare(a, b, caseSensitive) <==>
            Consistent(a, caseSensitive) && Consistent(b, caseSensitive) &&
            Meaning(a, caseSensitive) == Meaning(b, caseSensitive)
    decreases Height(a) + Height(b), 0
  {
    HeightOfKids(a);
    HeightOfKids(b);
    var s, t := Meaning(a, caseSensitive).items, Meaning(b, caseSensitive).items;
    assert |s| == |a.kids| && |t| == |b.kids|;
    if |a.kids| == |b.kids| {
      forall i | 0 <= i < |a.kids|
        ensures Compare(a.kids[i], b.kids[i], caseSensitive) <==>
                Consistent(a.kids[i], caseSensitive) && Consistent(b.kids[i], caseSensitive) && s[i] == t[i]
      {
        CompareIsMeaning(a.kids[i], b.kids[i], caseSensitive);
      }
    }
  }

  // ----- the same, without a meaning in between -----

  /** A tree without objects: integers below the border, C strings, and nothing below what is no array. */
  ghost predicate IsPlain(t: Tree)
    decreases Height(t)
  {
    HeightOfKids(t);
    && !t.payload.ObjectItem?
    && (t.payload.NumberItem? ==> IsInteger(t.payload.value, 4503599627370495))
    && (t.payload.StringItem? ==> NulFree(t.payload.text))
    && (!t.payload.ArrayItem? ==> t.kids == [])
    && forall i :: 0 <= i < |t.kids| ==> t.kids[i].key.None? && IsPlain(t.kids[i])
  }

  /** Such trees compare equal exactly when they are equal, but for names that stand above them. */
  lemma {:induction false} PlainTreesCompareExactly(a: Tree, b: Tree, caseSensitive: bool)
    requires IsPlain(a) && IsPlain(b)
    ensures Compare(a, b, caseSensitive) <==> a.payload == b.payload && a.kids == b.kids
    decreases Height(a)
  {
    if a.payload.NumberItem? && b.payload.NumberItem? {
      IntegersCompareExactly(a.payload.value, b.payload.value, 4503599627370495);
    }
    if a.payload.StringItem? && b.payload.StringItem? {
      CStringOfTerminated(a.payload.text, []);
      CStringOfTerminated(b.payload.text, []);
    }
    if a.payload.ArrayItem? && b.payload.ArrayItem? && |a.kids| == |b.kids| {
      HeightOfKids(a);
      forall i | 0 <= i < |a.kids|
        ensures Compare(a.kids[i], b.kids[i], caseSensitive) <==> a.kids[i] == b.kids[i]
      {
        PlainTreesCompareExactly(a.kids[i], b.kids[i], caseSensitive);
      }
    }
  }

  /** Two objects whose members all have names of their own compare equal exactly when each member of one has an equal
      member of the same name in the other, wherever it stands. */
  lemma ObjectsCompareByName(a: Tree, b: Tree, caseSensitive: bool)
    requires a.payload.ObjectItem? && b.payload.ObjectItem?
    requires AllDistinct(a.kids, caseSensitive) && AllDistinct(b.kids, caseSensitive)
    ensures Compare(a, b, caseSensitive) <==>
            (forall i :: 0 <= i < |a.kids| ==> HasEqual(a.kids[i], b.kids, caseSensitive)) &&
            (forall j :: 0 <= j < |b.kids| ==> HasEqual(b.kids[j], a.kids, caseSensitive))
  {
    CoversByName(a, b, caseSensitive);
    CoversByName(b, a, caseSensitive);
  }

  ghost predicate AllDistinct(kids: seq<Tree>, caseSensitive: bool) {
    AllNamed(kids) && forall i, j :: 0 <= i < j < |kids| ==> !SameFolded(kids[i], kids[j], caseSensitive)
  }

  ghost predicate HasEqual(k: Tree, kids: seq<Tree>, caseSensitive: bool) {
    exists j :: 0 <= j < |kids| && SameFolded(k, kids[j], caseSensitive) && Compare(k, kids[j], caseSensitive)
  }

  lemma CoversByName(a: Tree, b: Tree, caseSensitive: bool)
    requires AllDistinct(a.kids, caseSensitive) && AllDistinct(b.kids, caseSensitive)
    ensures Covers(a, b, caseSensitive) <==>
            forall i :: 0 <= i < |a.kids| ==> HasEqual(a.kids[i], b.kids, caseSensitive)
  {
    hide Compare, GetObjectItem, Folded, Names;
    forall i | 0 <= i < |a.kids|
      ensures var at := GetObjectItem(b.kids, a.kids[i].key, caseSensitive);
              at.Some? && Compare(a.kids[i], b.kids[at.value], caseSensitive) <==>
              HasEqual(a.kids[i], b.kids, caseSensitive)
    {
      FoundByName(a.kids[i], b.kids, caseSensitive);
    }
  }

  /** The search finds the only member of that name, or there is none. */
  lemma FoundByName(k: Tree, kids: seq<Tree>, caseSensitive: bool)
    requires k.key.Some? && AllDistinct(kids, caseSensitive)
    ensures var at := GetObjectItem(kids, k.key, caseSensitive);
            if at.None? then forall j :: 0 <= j < |kids| ==> !SameFolded(k, kids[j], caseSensitive)
            else forall j :: 0 <= j < |kids| ==> (SameFolded(k, kids[j], caseSensitive) <==> j == at.value)
  {
    hide GetObjectItem, Folded, Names;
    var name := Folded(k.key.value, caseSensitive);
    SearchAmongNamed(kids, k.key.value, caseSensitive);
    forall j | 0 <= j < |kids|
      ensures SameFolded(k, kids[j], caseSensitive) <==> Has(kids, j, name, caseSensitive)
    {
    }
    NamesAreHad(kids, name, caseSensitive);
    if name in Names(kids, caseSensitive) {
      var first := First(kids, name, caseSensitive);
      forall j | 0 <= j < |kids| && Has(kids, j, name, caseSensitive)
        ensures j == first
      {
      }
    }
  }

  // ----- consequences -----

  /** Comparing is symmetric, on all trees. */
  lemma {:induction false} CompareIsSymmetric(a: Tree, b: Tree, caseSensitive: bool)
    ensures Compare(a, b, caseSensitive) == Compare(b, a, caseSensitive)
    decreases Height(a)
  {
    if a.payload.ArrayItem? && b.payload.ArrayItem? && |a.kids| == |b.kids| {
      HeightOfKids(a);
      forall i | 0 <= i < |a.kids|
        ensures Compare(a.kids[i], b.kids[i], caseSensitive) == Compare(b.kids[i], a.kids[i], caseSensitive)
      {
        CompareIsSymmetric(a.kids[i], b.kids[i], caseSensitive);
      }
    }
  }

  /** Whatever its numbers, a tree equals a copy of itself exactly when all members of its objects have names, and each
      that repeats a name equals the first member of that name. */
  ghost predicate RepeatsAgree(t: Tree, caseSensitive: bool)
    decreases Height(t)
  {
    HeightOfKids(t);
    && (t.payload.ArrayItem? ==> forall i :: 0 <= i < |t.kids| ==> RepeatsAgree(t.kids[i], caseSensitive))
    && (t.payload.ObjectItem? ==>
          AllNamed(t.kids) && forall i: nat :: i < |t.kids| ==>
            var first := FirstLike(t.kids, i, caseSensitive);
            if first == i then RepeatsAgree(t.kids[i], caseSensitive)
            else Compare(t.kids[i], t.kids[first], caseSensitive))
  }

  /** The first member of the same name. */
  ghost function FirstLike(kids: seq<Tree>, i: nat, caseSensitive: bool): (first: nat)
    requires i < |kids| && kids[i].key.Some?
    ensures first < |kids|
  {
    NameOf(kids, i, caseSensitive);
    First(kids, Folded(kids[i].key.value, caseSensitive), caseSensitive)
  }

  lemma {:induction false} EqualsItselfExactly(t: Tree, caseSensitive: bool)
    ensures Compare(t, t, caseSensitive) <==> RepeatsAgree(t, caseSensitive)
    decreases Height(t)
  {
    HeightOfKids(t);
    forall i: nat | i < |t.kids|
      ensures Compare(t.kids[i], t.kids[i], caseSensitive) <==> RepeatsAgree(t.kids[i], caseSensitive)
      ensures AllNamed(t.kids) ==>
                GetObjectItem(t.kids, t.kids[i].key, caseSensitive) == Some(FirstLike(t.kids, i, caseSensitive))
    {
      EqualsItselfExactly(t.kids[i], caseSensitive);
      if AllNamed(t.kids) {
        NameOf(t.kids, i, caseSensitive);
        SearchAmongNamed(t.kids, t.kids[i].key.value, caseSensitive);
      }
    }
    if t.payload.ObjectItem? && Compare(t, t, caseSensitive) {
      CoversNeedsNames(t, t, caseSensitive);
    }
  }

  /** A tree within the border equals a copy of itself exactly when it is consistent. */
  lemma EqualsItself(t: Tree, caseSensitive: bool)
    requires Within(t, BORDER)
    ensures Compare(t, t, caseSensitive) <==> Consistent(t, caseSensitive)
  {
    CompareIsMeaning(t, t, caseSensitive);
  }

  /** Every member of every object has a name of its own. */
  ghost predicate DistinctNames(t: Tree, caseSensitive: bool)
    decreases Height(t)
  {
    HeightOfKids(t);
    && (forall i :: 0 <= i < |t.kids| ==> DistinctNames(t.kids[i], caseSensitive))
    && (t.payload.ObjectItem? ==>
          && AllNamed(t.kids)
          && forall i, j :: 0 <= i < j < |t.kids| ==> !SameFolded(t.kids[i], t.kids[j], caseSensitive))
  }

  lemma {:induction false} DistinctIsConsistent(t: Tree, caseSensitive: bool)
    requires DistinctNames(t, caseSensitive)
    ensures Consistent(t, caseSensitive)
    decreases Height(t)
  {
    HeightOfKids(t);
    forall i | 0 <= i < |t.kids|
      ensures Consistent(t.kids[i], caseSensitive)
    {
      DistinctIsConsistent(t.kids[i], caseSensitive);
    }
  }

  /** A tree with distinct names equals a copy of itself, whatever its numbers. */
  lemma {:induction false} DistinctEqualsItself(t: Tree, caseSensitive: bool)
    requires DistinctNames(t, caseSensitive)
    ensures Compare(t, t, caseSensitive)
    decreases Height(t)
  {
    HeightOfKids(t);
    forall i: nat | i < |t.kids|
      ensures Compare(t.kids[i], t.kids[i], caseSensitive)
      ensures t.payload.ObjectItem? ==> GetObjectItem(t.kids, t.kids[i].key, caseSensitive) == Some(i)
    {
      DistinctEqualsItself(t.kids[i], caseSensitive);
      if t.payload.ObjectItem? {
        FoundAtItself(t.kids, i, caseSensitive);
      }
    }
  }

  /** With distinct names, searching for the name of a member finds that member. */
  lemma FoundAtItself(kids: seq<Tree>, i: nat, caseSensitive: bool)
    requires AllNamed(kids) && i < |kids|
    requires forall k, j :: 0 <= k < j < |kids| ==> !SameFolded(kids[k], kids[j], caseSensitive)
    ensures GetObjectItem(kids, kids[i].key, caseSensitive) == Some(i)
  {
    hide Folded, GetObjectItem;
    var name := kids[i].key.value;
    SearchFindsFirst(kids, name, caseSensitive, 0);
    forall j | 0 <= j < |kids| && j != i
      ensures !Has(kids, j, Folded(name, caseSensitive), caseSensitive)
    {
      assert !SameFolded(kids[if i < j then i else j], kids[if i < j then j else i], caseSensitive);
    }
    assert IsReached(kids, i, Folded(name, caseSensitive), caseSensitive);
  }

  /** Transitivity among the trees whose numbers are integers of magnitude at most `n`. */
  ghost predicate IsTransitive(n: nat) {
    forall a, b, c, caseSensitive ::
      Within(a, n) && Within(b, n) && Within(c, n) && Compare(a, b, caseSensitive) && Compare(b, c, caseSensitive) ==>
        Compare(a, c, caseSensitive)
  }

  lemma {:induction false} WithinMore(t: Tree, m: nat, n: nat)
    requires Within(t, m) && m <= n
    ensures Within(t, n)
    decreases Height(t)
  {
    HeightOfKids(t);
    forall i | 0 <= i < |t.kids| ensures Within(t.kids[i], n) {
      WithinMore(t.kids[i], m, n);
    }
  }

  lemma CompareIsTransitive(a: Tree, b: Tree, c: Tree, caseSensitive: bool)
    requires Within(a, BORDER) && Within(b, BORDER) && Within(c, BORDER)
    requires Compare(a, b, caseSensitive) && Compare(b, c, caseSensitive)
    ensures Compare(a, c, caseSensitive)
  {
    CompareIsMeaning(a, b, caseSensitive);
    CompareIsMeaning(b, c, caseSensitive);
    CompareIsMeaning(a, c, caseSensitive);
  }

  function NumberTree(x: int): Tree {
    Tree(NumberItem(x as real), None, [])
  }

  /** Three trees that break transitivity, with numbers one beyond the border. */
  lemma BeyondTheBorder(caseSensitive: bool)
    ensures Compare(NumberTree(BORDER - 1), NumberTree(BORDER), caseSensitive)
    ensures Compare(NumberTree(BORDER), NumberTree(BORDER + 1), caseSensitive)
    ensures !Compare(NumberTree(BORDER - 1), NumberTree(BORDER + 1), caseSensitive)
  {
    BorderIsCrossed();
  }

  /** The exact condition: comparing is transitive on integers up to 2^52 in magnitude, and no further. */
  lemma TransitiveUpToBorder(n: nat)
    ensures IsTransitive(n) <==> n <= BORDER
  {
    if n <= BORDER {
      forall a, b, c, caseSensitive |
        Within(a, n) && Within(b, n) && Within(c, n) && Compare(a, b, caseSensitive) && Compare(b, c, caseSensitive)
        ensures Compare(a, c, caseSensitive)
      {
        WithinMore(a, n, BORDER);
        WithinMore(b, n, BORDER);
        WithinMore(c, n, BORDER);
        CompareIsTransitive(a, b, c, caseSensitive);
      }
    } else {
      BeyondTheBorder(true);
      assert Within(NumberTree(BORDER - 1), n) && Within(NumberTree(BORDER), n) && Within(NumberTree(BORDER + 1), n);
    }
  }

  /** That numbers are integers matters too: with fractions it is not transitive on numbers of at most 2. */
  lemma FractionsAreNotTransitive(caseSensitive: bool)
    ensures exists x, y, z ::
              && 0.0 <= x < y < z < 2.0
              && Compare(Tree(NumberItem(x), None, []), Tree(NumberItem(y), None, []), caseSensitive)
              && Compare(Tree(NumberItem(y), None, []), Tree(NumberItem(z), None, []), caseSensitive)
              && !Compare(Tree(NumberItem(x), None, []), Tree(NumberItem(z), None, []), caseSensitive)
  {
    var x, y, z := 1.0, 1.0 + DBL_EPSILON, 1.0 + 2.0 * DBL_EPSILON;
    assert Compare(Tree(NumberItem(x), None, []), Tree(NumberItem(y), None, []), caseSensitive);
    assert Compare(Tree(NumberItem(y), None, []), Tree(NumberItem(z), None, []), caseSensitive);
    assert !Compare(Tree(NumberItem(x), None, []), Tree(NumberItem(z), None, []), caseSensitive);
  }

  /** Two members of one name and different values: such an object does not equal its own copy. */
  lemma DuplicateNamesDiffer()
    ensures var t := Tree(ObjectItem, None, [Tree(NullItem, Some([97]), []), Tree(TrueItem, Some([97]), [])]);
            !Compare(t, t, true)
  {
    var key: bytes := [97];
    var t := Tree(ObjectItem, None, [Tree(NullItem, Some(key), []), Tree(TrueItem, Some(key), [])]);
    assert Within(t.kids[0], 0) && Within(t.kids[1], 0);
    assert SameFolded(t.kids[0], t.kids[1], true);
    EqualsItself(t, true);
  }

  /** `cJSON_Compare` on nodes: a node equals itself without being looked at. */
  ghost predicate CompareNodes(a: Node?, b: Node?, caseSensitive: bool)
    requires a != null ==> IsTree(a)
    requires b != null ==> IsTree(b)
    reads if a == null then {} else {a} + a.below
    reads if b == null then {} else {b} + b.below
  {
    a != null && b != null && (a == b || Compare(TreeOf(a), TreeOf(b), caseSensitive))
  }

  /** Whether a whole duplicate equals its original: exactly when repeated names agree, so if names are distinct; within
      the border exactly when the original is consistent. */
  method DuplicateAndCompare(item: Node, caseSensitive: bool) returns (copy: Node?)
    requires IsTree(item)
    ensures copy != null <==> Height(TreeOf(item)) <= CIRCULAR_LIMIT
    ensures copy != null ==> fresh(copy) && fresh(copy.below) && IsTree(copy) && TreeOf(copy) == TreeOf(item)
    ensures copy != null ==> (CompareNodes(item, copy, caseSensitive) <==> RepeatsAgree(TreeOf(item), caseSensitive))
    ensures copy != null && DistinctNames(TreeOf(item), caseSensitive) ==> CompareNodes(item, copy, caseSensitive)
    ensures copy != null && Within(TreeOf(item), BORDER) ==>
              (CompareNodes(item, copy, caseSensitive) <==> Consistent(TreeOf(item), caseSensitive))
  {
    copy := DuplicateRec(item, 0, true);
    EqualsItselfExactly(TreeOf(item), caseSensitive);
    if DistinctNames(TreeOf(item), caseSensitive) {
      DistinctEqualsItself(TreeOf(item), caseSensitive);
    }
    if Within(TreeOf(item), BORDER) {
      EqualsItself(TreeOf(item), caseSensitive);
    }
  }
}
