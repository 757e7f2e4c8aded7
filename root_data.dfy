/**
 * The validation application's ROOT output helpers: the table between
 * Geant4 process / Celeritas action names and the `ProcessId` enumeration,
 * the ordering of sensitive-detector keys, and `Array3` indexing.
 */
module RootData {
  import opened Wrappers
  import opened ProcessTable

  // ---------------------------------------------------------------------
  // Lookups

  /** `map.find(name)`: the identifier of the entry with that name. */
  function Find(t: seq<(string, ProcessId)>, name: string): (r: Option<ProcessId>)
    ensures r.Some? <==> exists i :: 0 <= i < |t| && t[i].0 == name
    ensures r.Some? ==> exists i :: 0 <= i < |t| && t[i] == (name, r.value)
  {
    if t == [] then None
    else if t[0].0 == name then Some(t[0].1)
    else
      var r := Find(t[1..], name);
      assert forall i :: 0 < i < |t| ==> t[i] == t[1..][i - 1];
      assert r.Some? ==> (exists i :: 0 <= i < |t[1..]| && t[1..][i] == (name, r.value));
      r
  }

  /** `std::find_if` on `second == id`: the name of the entry with that identifier. */
  function FindName(t: seq<(string, ProcessId)>, id: ProcessId): (r: Option<string>)
    ensures r.Some? <==> exists i :: 0 <= i < |t| && t[i].1 == id
    ensures r.Some? ==> exists i :: 0 <= i < |t| && t[i] == (r.value, id)
  {
    if t == [] then None
    else if t[0].1 == id then Some(t[0].0)
    else
      var r := FindName(t[1..], id);
      assert forall i :: 0 < i < |t| ==> t[i] == t[1..][i - 1];
      assert r.Some? ==> (exists i :: 0 <= i < |t[1..]| && t[1..][i] == (r.value, id));
      r
  }

  /** `to_process_name_id`: the mapped identifier, or `not_mapped` for an unknown name. */
  function ToProcessNameId(name: string): ProcessId
  {
    match Find(ProcessMap(), name)
    case None => NotMapped
    case Some(id) => id
  }

  /** `to_process_name`: the name mapped to the identifier, or "not_mapped" if there is none. */
  function ToProcessName(id: ProcessId): string
  {
    match FindName(ProcessMap(), id)
    case None => "not_mapped"
    case Some(name) => name
  }

  /** A name in the table gets its own identifier; any other name gets `not_mapped`. */
  lemma ToProcessNameIdSpec(name: string, id: ProcessId)
    ensures ToProcessNameId(name) == id <==>
      (name, id) in ProcessMap() || (id == NotMapped && forall i :: 0 <= i < |ProcessMap()| ==> ProcessMap()[i].0 != name)
  {
    KeysDistinct();
    if (name, id) in ProcessMap() {
      var i :| 0 <= i < |ProcessMap()| && ProcessMap()[i] == (name, id);
      var j :| 0 <= j < |ProcessMap()| && ProcessMap()[j] == (name, Find(ProcessMap(), name).value);
      assert i == j;
    }
  }

  /** Every identifier has a name in the table, so the "not_mapped" fallback is never taken. */
  lemma EveryIdNamed(id: ProcessId)
    ensures FindName(ProcessMap(), id).Some?
    ensures (ToProcessName(id), id) in ProcessMap()
  {
    PositionEntry(id);
    var i := Position(id);
    assert ProcessMap()[i].1 == id;
  }

  /** Naming an identifier and looking the name up gives the identifier back. */
  lemma IdRoundTrip(id: ProcessId)
    ensures ToProcessNameId(ToProcessName(id)) == id
  {
    EveryIdNamed(id);
    ToProcessNameIdSpec(ToProcessName(id), id);
  }

  /** Looking a table name up and naming the identifier gives the name back. */
  lemma NameRoundTrip(name: string)
    requires exists i :: 0 <= i < |ProcessMap()| && ProcessMap()[i].0 == name
    ensures ToProcessName(ToProcessNameId(name)) == name
  {
    ValuesDistinct();
    var id := ToProcessNameId(name);
    var i :| 0 <= i < |ProcessMap()| && ProcessMap()[i] == (name, id);
    EveryIdNamed(id);
    var j :| 0 <= j < |ProcessMap()| && ProcessMap()[j] == (ToProcessName(id), id);
    assert i == j;
  }

  /** `not_mapped` is named by its own table entry, not by the fallback. */
  lemma NotMappedName()
    ensures ToProcessName(NotMapped) == "not_mapped"
    ensures ToProcessNameId("not_mapped") == NotMapped
  {
    EveryIdNamed(NotMapped);
    var j :| 0 <= j < |ProcessMap()| && ProcessMap()[j] == (ToProcessName(NotMapped), NotMapped);
    PositionEntry(NotMapped);
    ValuesDistinct();
    assert j == Position(NotMapped);
    IdRoundTrip(NotMapped);
  }

  // ---------------------------------------------------------------------
  // Sensitive-detector keys

  /** C++ `unsigned int`. */
  newtype U32 = x: int | 0 <= x < 0x1_0000_0000

  /** A sensitive detector: its name and the copy number of its physical volume. */
  datatype SensDetGdml = SensDetGdml(name: string, copyNumber: U32)

  /**
   * `std::string::operator<`: lexicographic by character code, a proper
   * prefix coming first.
   */
  predicate StringLess(a: string, b: string)
  {
    if a == [] then b != []
    else if b == [] then false
    else if a[0] != b[0] then a[0] < b[0]
    else StringLess(a[1..], b[1..])
  }

  /** `operator<` on `SensDetGdml`: the tuple order on (name, copy number). */
  predicate Less(lhs: SensDetGdml, rhs: SensDetGdml)
  {
    StringLess(lhs.name, rhs.name) || (lhs.name == rhs.name && lhs.copyNumber < rhs.copyNumber)
  }

  lemma {:induction false} StringLessIrreflexive(a: string)
    ensures !StringLess(a, a)
  {
    if a != [] {
      StringLessIrreflexive(a[1..]);
    }
  }

  lemma {:induction false} StringLessTransitive(a: string, b: string, c: string)
    requires StringLess(a, b) && StringLess(b, c)
    ensures StringLess(a, c)
  {
    if a != [] && b != [] && c != [] && a[0] == b[0] && b[0] == c[0] {
      StringLessTransitive(a[1..], b[1..], c[1..]);
    }
  }

  /** Exactly one of a < b, a == b, b < a. */
  lemma {:induction false} StringLessTrichotomy(a: string, b: string)
    ensures StringLess(a, b) || a == b || StringLess(b, a)
    ensures !(StringLess(a, b) && StringLess(b, a))
  {
    if a != [] && b != [] && a[0] == b[0] {
      StringLessTrichotomy(a[1..], b[1..]);
      if a[1..] == b[1..] {
        assert a == [a[0]] + a[1..] && b == [b[0]] + b[1..];
      }
    }
  }

  /** The key order is a strict total order, as `std::set` and `std::map` keys need. */
  lemma LessStrictTotalOrder(x: SensDetGdml, y: SensDetGdml, z: SensDetGdml)
    ensures !Less(x, x)
    ensures Less(x, y) && Less(y, z) ==> Less(x, z)
    ensures Less(x, y) || x == y || Less(y, x)
    ensures !(Less(x, y) && Less(y, x))
  {
    StringLessIrreflexive(x.name);
    StringLessTrichotomy(x.name, y.name);
    if Less(x, y) && Less(y, z) {
      if StringLess(x.name, y.name) && StringLess(y.name, z.name) {
        StringLessTransitive(x.name, y.name, z.name);
      }
    }
  }

  /** Names decide first: a smaller name wins whatever the copy numbers. */
  lemma LessByName(x: SensDetGdml, y: SensDetGdml)
    requires x.name != y.name
    ensures Less(x, y) <==> StringLess(x.name, y.name)
  {
  }

  // ---------------------------------------------------------------------
  // Array3

  /** A point or direction; `double` components are modelled as reals. */
  datatype Array3 = Array3(x: real, y: real, z: real)

  /** `Array3::operator[]`: components 0, 1, 2; any other index is undefined behaviour. */
  function Index(a: Array3, i: int): real
    requires 0 <= i < 3
  {
    if i == 0 then a.x else if i == 1 then a.y else a.z
  }

  /** The three indices read the three fields, so they determine the value. */
  lemma IndexDetermines(a: Array3, b: Array3)
    ensures a == b <==> forall i :: 0 <= i < 3 ==> Index(a, i) == Index(b, i)
  {
    if forall i :: 0 <= i < 3 ==> Index(a, i) == Index(b, i) {
      assert Index(a, 0) == Index(b, 0) && Index(a, 1) == Index(b, 1) && Index(a, 2) == Index(b, 2);
    }
  }

  /** Rebuilding a value from its three indices gives it back. */
  lemma IndexRoundTrip(a: Array3)
    ensures Array3(Index(a, 0), Index(a, 1), Index(a, 2)) == a
  {
  }
}
