/** Business rules for terrorists: get-or-create by exact name; the other
    operations pass the data-access results through. */
module TerroristService {
  import opened Common
  import opened Models
  import opened Database
  import TerroristDal

  method CreateTerrorist(db: Store, name: string, affiliation: Option<string> := None, location: Option<string> := None)
    returns (t: Terrorist)
    requires db.Valid()
    modifies db`terrorists, db`nextTerroristId
    ensures db.Valid()
    ensures t == Terrorist(old(db.nextTerroristId), name, affiliation, location)
    ensures db.terrorists == old(db.terrorists) + [t]
    ensures db.nextTerroristId == old(db.nextTerroristId) + 1
  {
    t := TerroristDal.CreateTerrorist(db, name, affiliation, location);
  }

  function GetTerroristById(db: Store, id: int): (r: Option<Terrorist>)
    reads db
    ensures r == TerroristDal.GetTerroristById(db, id)
  {
    TerroristDal.GetTerroristById(db, id)
  }

  function GetTerroristByName(db: Store, name: string): (r: Option<Terrorist>)
    reads db
    ensures r == TerroristDal.GetTerroristByName(db, name)
  {
    TerroristDal.GetTerroristByName(db, name)
  }

  function SearchTerroristsByName(db: Store, part: string): (r: seq<Terrorist>)
    reads db
    ensures r == TerroristDal.SearchTerroristsByName(db, part)
  {
    TerroristDal.SearchTerroristsByName(db, part)
  }

  function GetAllTerrorists(db: Store): (r: seq<Terrorist>)
    reads db
    ensures r == TerroristDal.GetAllTerrorists(db)
  {
    TerroristDal.GetAllTerrorists(db)
  }

  /** Returns the first terrorist named exactly `name`, creating nothing
      (and ignoring `affiliation` and `location`) when there is one;
      otherwise creates exactly one with the given fields. */
  method GetOrCreateTerrorist(db: Store, name: string, affiliation: Option<string> := None, location: Option<string> := None)
    returns (t: Terrorist)
    requires db.Valid()
    modifies db`terrorists, db`nextTerroristId
    ensures db.Valid()
    ensures t.name == name && t in db.terrorists
    ensures old(TerroristDal.GetTerroristByName(db, name)).Some? ==>
              t == old(TerroristDal.GetTerroristByName(db, name)).value && unchanged(db)
    ensures old(TerroristDal.GetTerroristByName(db, name)).None? ==>
              && t == Terrorist(old(db.nextTerroristId), name, affiliation, location)
              && db.terrorists == old(db.terrorists) + [t]
              && db.nextTerroristId == old(db.nextTerroristId) + 1
  {
    var found := GetTerroristByName(db, name);
    if found.None? {
      t := CreateTerrorist(db, name, affiliation, location);
    } else {
      t := found.value;
    }
  }

  /** Two get-or-create calls with one name give the same row and add at
      most one row between them. */
  method GetOrCreateTwice(db: Store, name: string,
                          affiliation1: Option<string>, location1: Option<string>,
                          affiliation2: Option<string>, location2: Option<string>)
    returns (t1: Terrorist, t2: Terrorist)
    requires db.Valid()
    modifies db`terrorists, db`nextTerroristId
    ensures db.Valid()
    ensures t1 == t2
    ensures |db.terrorists| <= |old(db.terrorists)| + 1
  {
    ghost var before := db.terrorists;
    t1 := GetOrCreateTerrorist(db, name, affiliation1, location1);
    ghost var between := db.terrorists;
    if old(TerroristDal.GetTerroristByName(db, name)).None? {
      // The new row is the only one with that name, so it is the first match.
      assert between == before + [t1];
      forall j | 0 <= j < |before| ensures between[j].name != name {
        assert between[j] == before[j] && before[j] in before;
      }
      assert between[|before|] == t1;
    }
    t2 := GetOrCreateTerrorist(db, name, affiliation2, location2);
  }
}
