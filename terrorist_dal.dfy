/** Data access for the terrorists table: insert, the lookups by id and by
    exact name, the name search and the full listing. */
module TerroristDal {
  import opened Common
  import opened Models
  import opened Database
  import opened Text

  function HasTerroristId(id: int): Terrorist -> bool {
    (t: Terrorist) => t.id == id
  }

  function HasName(name: string): Terrorist -> bool {
    (t: Terrorist) => t.name == name
  }

  function NameContains(part: string): Terrorist -> bool {
    (t: Terrorist) => Contains(t.name, part)
  }

  /** Inserts a new terrorist under the next AUTO_INCREMENT id; names need
      not be unique. */
  method CreateTerrorist(db: Store, name: string, affiliation: Option<string> := None, location: Option<string> := None)
    returns (t: Terrorist)
    requires db.Valid()
    modifies db`terrorists, db`nextTerroristId
    ensures db.Valid()
    ensures t == Terrorist(old(db.nextTerroristId), name, affiliation, location)
    ensures db.terrorists == old(db.terrorists) + [t]
    ensures db.nextTerroristId == old(db.nextTerroristId) + 1
    ensures forall x :: x in old(db.terrorists) ==> x.id != t.id
  {
    t := Terrorist(db.nextTerroristId, name, affiliation, location);
    AppendKeyedBelow(db.terrorists, TerroristKey, db.nextTerroristId, t);
    forall x | x in db.terrorists ensures x.id < t.id {
      var i :| 0 <= i < |db.terrorists| && db.terrorists[i] == x;
    }
    db.terrorists := db.terrorists + [t];
    db.nextTerroristId := db.nextTerroristId + 1;
    assert forall id :: old(db.HasTerrorist(id)) ==> db.HasTerrorist(id);
  }

  /** The terrorist whose primary key is `id` (`session.get`). */
  function GetTerroristById(db: Store, id: int): (r: Option<Terrorist>)
    reads db
    ensures r.None? <==> !db.HasTerrorist(id)
    ensures r.Some? ==> r.value in db.terrorists && r.value.id == id
  {
    First(db.terrorists, HasTerroristId(id))
  }

  /** The first terrorist whose name is exactly `name`. */
  function GetTerroristByName(db: Store, name: string): (r: Option<Terrorist>)
    reads db
    ensures r.None? <==> forall t :: t in db.terrorists ==> t.name != name
    ensures r.Some? ==> r.value in db.terrorists && r.value.name == name
    ensures r.Some? ==> exists k :: && 0 <= k < |db.terrorists| && db.terrorists[k] == r.value
                                    && forall j :: 0 <= j < k ==> db.terrorists[j].name != name
  {
    var r := First(db.terrorists, HasName(name));
    assert r.None? ==> forall t :: t in db.terrorists ==> t.name != name by {
      if r.None? {
        forall t | t in db.terrorists ensures t.name != name {
          var i :| 0 <= i < |db.terrorists| && db.terrorists[i] == t;
          assert !HasName(name)(db.terrorists[i]);
        }
      }
    }
    r
  }

  /** The terrorists whose name contains `part`, in id order. */
  function SearchTerroristsByName(db: Store, part: string): (r: seq<Terrorist>)
    reads db
    ensures forall t :: t in r ==> t in db.terrorists && Contains(t.name, part)
    ensures forall t :: t in db.terrorists && Contains(t.name, part) ==> t in r
  {
    Filter(db.terrorists, NameContains(part))
  }

  /** Every terrorist, in id order. */
  function GetAllTerrorists(db: Store): (r: seq<Terrorist>)
    reads db
    ensures |r| == |db.terrorists| && forall i :: 0 <= i < |r| ==> r[i] == db.terrorists[i]
  {
    db.terrorists
  }

  /** In a valid store the lookup by id finds the row with that id. */
  lemma IdLookupFinds(db: Store, t: Terrorist)
    requires db.Valid()
    requires t in db.terrorists
    ensures GetTerroristById(db, t.id) == Some(t)
  {
    var s := db.terrorists;
    assert AtMostOne(s, HasTerroristId(t.id)) by {
      forall i, j | 0 <= i < j < |s| && HasTerroristId(t.id)(s[i]) ensures !HasTerroristId(t.id)(s[j]) {
        assert TerroristKey(s[i]) < TerroristKey(s[j]);
      }
    }
    FirstOfUnique(s, HasTerroristId(t.id), t);
  }

  /** The name search keeps the rows in id order. */
  lemma SearchInIdOrder(db: Store, part: string)
    requires db.Valid()
    ensures Ascending(SearchTerroristsByName(db, part), TerroristKey)
  {
    FilterAscending(db.terrorists, NameContains(part), TerroristKey);
  }
}
