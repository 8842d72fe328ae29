/**
 * The in-memory data of the resolvers: the three seed tables (humans, droids,
 * starships), the id-to-record index built over each of them by
 * mockTableIndex, the lookups over those indexes, the hard-coded hero rule
 * and the two type discriminators that probe the indexes.
 */
module Store {
  import opened Wrappers

  /** The GraphQL enum Episode. */
  datatype Episode = NEWHOPE | EMPIRE | JEDI

  /**
   * One row of a seed table. Starships carry no friends; only humans list
   * starships. Scalar attributes that are only passed through (appearsIn,
   * homePlanet, height, mass, primaryFunction, length) are not modelled.
   */
  datatype Record = Record(id: string, name: string, friends: seq<string>, starships: seq<string>)

  type Index = map<string, Record>

  datatype Kind = HumanKind | DroidKind | StarshipKind

  /** The ids that occur in a table. */
  function Ids(table: seq<Record>): (ids: set<string>)
  {
    set k | 0 <= k < |table| :: table[k].id
  }

  /** Row k is the last row of the table that carries its id. */
  predicate IsLastWithId(table: seq<Record>, k: int)
  {
    0 <= k < |table| && forall j :: k < j < |table| ==> table[j].id != table[k].id
  }

  /**
   * The index mockTableIndex builds: rows are written in table order, so a
   * later row with the same id replaces an earlier one.
   */
  function TableIndex(table: seq<Record>): (index: Index)
    ensures forall id :: id in index ==> index[id].id == id
  {
    if table == [] then map[]
    else
      var last := table[|table| - 1];
      TableIndex(table[..|table| - 1])[last.id := last]
  }

  /** The index holds exactly the ids of the table. */
  lemma {:induction false} TableIndexKeys(table: seq<Record>)
    ensures TableIndex(table).Keys == Ids(table)
  {
    if table != [] {
      var n := |table| - 1;
      var init := table[..n];
      TableIndexKeys(init);
      forall id | id in Ids(table) ensures id in Ids(init) + {table[n].id} {
        var k :| 0 <= k < |table| && table[k].id == id;
        if k < n { assert init[k] == table[k]; }
      }
      forall id | id in Ids(init) ensures id in Ids(table) {
        var k :| 0 <= k < n && init[k].id == id;
        assert table[k] == init[k];
      }
    }
  }

  /** Each id is mapped to the last row of the table that carries it. */
  lemma {:induction false} TableIndexLastWins(table: seq<Record>)
    ensures TableIndex(table).Keys == Ids(table)
    ensures forall k :: IsLastWithId(table, k) ==> TableIndex(table)[table[k].id] == table[k]
  {
    TableIndexKeys(table);
    if table != [] {
      var n := |table| - 1;
      var init := table[..n];
      TableIndexLastWins(init);
      forall k | IsLastWithId(table, k) ensures TableIndex(table)[table[k].id] == table[k] {
        if k < n {
          assert table[k] == init[k];
          assert IsLastWithId(init, k);
        }
      }
    }
  }

  lemma RowIdIndexed(table: seq<Record>, row: Record)
    requires row in table
    ensures row.id in TableIndex(table)
  {
    TableIndexKeys(table);
    var k :| 0 <= k < |table| && table[k] == row;
  }

  /** Every id of the table has a last row carrying it. */
  lemma LastRowExists(table: seq<Record>, id: string)
    requires id in Ids(table)
    ensures exists k :: IsLastWithId(table, k) && table[k].id == id
  {
    var k :| 0 <= k < |table| && table[k].id == id;
    while !IsLastWithId(table, k)
      invariant 0 <= k < |table| && table[k].id == id
      decreases |table| - k
    {
      var j :| k < j < |table| && table[j].id == id;
      k := j;
    }
  }

  /** mockTableIndex: one pass over the table, writing each row under its id. */
  method MockTableIndex(table: seq<Record>) returns (hashIndex: Index)
    ensures hashIndex == TableIndex(table)
    ensures hashIndex.Keys == Ids(table)
    ensures forall k :: IsLastWithId(table, k) ==> hashIndex[table[k].id] == table[k]
  {
    hashIndex := map[];
    for i := 0 to |table|
      invariant hashIndex == TableIndex(table[..i])
    {
      assert table[..i + 1][..i] == table[..i];
      hashIndex := hashIndex[table[i].id := table[i]];
    }
    assert table[..|table|] == table;
    TableIndexLastWins(table);
  }

  /** The seed tables and the indexes built over them. */
  datatype Db = Db(
    humans: seq<Record>, droids: seq<Record>, starships: seq<Record>,
    humanData: Index, droidData: Index, starshipData: Index)

  /** Each index is the one mockTableIndex builds from its table. */
  predicate Indexed(db: Db)
  {
    && db.humanData == TableIndex(db.humans)
    && db.droidData == TableIndex(db.droids)
    && db.starshipData == TableIndex(db.starships)
  }

  /** Module start-up: the seed tables are kept and each is indexed once. */
  method Load(humans: seq<Record>, droids: seq<Record>, starships: seq<Record>) returns (db: Db)
    ensures Indexed(db)
    ensures db.humans == humans && db.droids == droids && db.starships == starships
  {
    var humanData := MockTableIndex(humans);
    var droidData := MockTableIndex(droids);
    var starshipData := MockTableIndex(starships);
    db := Db(humans, droids, starships, humanData, droidData, starshipData);
  }

  function Get(index: Index, id: string): (r: Option<Record>)
  {
    if id in index then Some(index[id]) else None
  }

  function GetHuman(db: Db, id: string): (r: Option<Record>)
  {
    Get(db.humanData, id)
  }

  function GetDroid(db: Db, id: string): (r: Option<Record>)
  {
    Get(db.droidData, id)
  }

  function GetStarship(db: Db, id: string): (r: Option<Record>)
  {
    Get(db.starshipData, id)
  }

  /** A lookup in an index built from a table finds the table's last row with that id, or nothing. */
  lemma LookupFindsLastRow(table: seq<Record>, id: string)
    ensures Get(TableIndex(table), id).Some? <==> id in Ids(table)
    ensures Get(TableIndex(table), id).Some? ==>
      exists k :: IsLastWithId(table, k) && table[k].id == id && Get(TableIndex(table), id).value == table[k]
  {
    TableIndexLastWins(table);
    if id in Ids(table) {
      LastRowExists(table, id);
    }
  }

  /** getCharacter: the human with that id, else the droid with that id, else nothing. */
  function GetCharacter(db: Db, id: string): (r: Option<Record>)
  {
    if id in db.humanData then Some(db.humanData[id])
    else if id in db.droidData then Some(db.droidData[id])
    else None
  }

  /**
   * getCharacter finds a character exactly when the id is a human or a droid
   * id, and humans win when both tables carry it.
   */
  lemma CharacterLookup(db: Db, id: string)
    requires Indexed(db)
    ensures GetCharacter(db, id).Some? <==> id in Ids(db.humans) || id in Ids(db.droids)
    ensures id in Ids(db.humans) ==> GetCharacter(db, id) == GetHuman(db, id)
    ensures id !in Ids(db.humans) ==> GetCharacter(db, id) == GetDroid(db, id)
    ensures GetCharacter(db, id).Some? ==> GetCharacter(db, id).value.id == id
  {
    TableIndexLastWins(db.humans);
    TableIndexLastWins(db.droids);
  }

  /** getHero: Luke ("1000") for EMPIRE, R2-D2 ("2001") for any other or no episode. */
  function GetHero(db: Db, episode: Option<Episode>): (r: Option<Record>)
  {
    if episode == Some(EMPIRE) then GetHuman(db, "1000") else GetDroid(db, "2001")
  }

  /**
   * The hero is fixed by the episode alone: the human row "1000" for EMPIRE,
   * the droid row "2001" otherwise, absent only when the seed lacks that row.
   */
  lemma HeroIsFixed(db: Db, episode: Option<Episode>)
    requires Indexed(db)
    ensures episode == Some(EMPIRE) ==>
      (GetHero(db, episode).Some? <==> "1000" in Ids(db.humans))
      && (GetHero(db, episode).Some? ==> GetHero(db, episode).value.id == "1000" && GetHero(db, episode).value in db.humans)
    ensures episode != Some(EMPIRE) ==>
      (GetHero(db, episode).Some? <==> "2001" in Ids(db.droids))
      && (GetHero(db, episode).Some? ==> GetHero(db, episode).value.id == "2001" && GetHero(db, episode).value in db.droids)
  {
    LookupFindsLastRow(db.humans, "1000");
    LookupFindsLastRow(db.droids, "2001");
  }

  /** The friends field: each friend id resolved with getCharacter, in list order. */
  function GetFriends(db: Db, friends: seq<string>): (r: seq<Option<Record>>)
    ensures |r| == |friends|
    ensures forall i :: 0 <= i < |friends| ==> r[i] == GetCharacter(db, friends[i])
  {
    seq(|friends|, i requires 0 <= i < |friends| => GetCharacter(db, friends[i]))
  }

  /** The starships field of a human: each starship id looked up, in list order. */
  function GetStarships(db: Db, starships: seq<string>): (r: seq<Option<Record>>)
    ensures |r| == |starships|
    ensures forall i :: 0 <= i < |starships| ==> r[i] == GetStarship(db, starships[i])
  {
    seq(|starships|, i requires 0 <= i < |starships| => GetStarship(db, starships[i]))
  }

  /**
   * Friend i resolves to a character exactly when friends[i] is a human or a
   * droid id, and then to the record with that id; a dangling id becomes null.
   */
  lemma FriendsResolve(db: Db, friends: seq<string>)
    requires Indexed(db)
    ensures |GetFriends(db, friends)| == |friends|
    ensures forall i :: 0 <= i < |friends| ==>
      (GetFriends(db, friends)[i].Some? <==> friends[i] in Ids(db.humans) || friends[i] in Ids(db.droids))
    ensures forall i :: 0 <= i < |friends| && GetFriends(db, friends)[i].Some? ==>
      GetFriends(db, friends)[i].value.id == friends[i]
  {
    forall i | 0 <= i < |friends|
      ensures GetFriends(db, friends)[i].Some? <==> friends[i] in Ids(db.humans) || friends[i] in Ids(db.droids)
      ensures GetFriends(db, friends)[i].Some? ==> GetFriends(db, friends)[i].value.id == friends[i]
    {
      CharacterLookup(db, friends[i]);
    }
  }

  /**
   * Starship i resolves exactly when starships[i] is a starship id, and then
   * to the last starship row with that id.
   */
  lemma StarshipsResolve(db: Db, starships: seq<string>)
    requires Indexed(db)
    ensures |GetStarships(db, starships)| == |starships|
    ensures forall i :: 0 <= i < |starships| ==>
      (GetStarships(db, starships)[i].Some? <==> starships[i] in Ids(db.starships))
    ensures forall i :: 0 <= i < |starships| && GetStarships(db, starships)[i].Some? ==>
      exists k :: IsLastWithId(db.starships, k) && db.starships[k] == GetStarships(db, starships)[i].value
  {
    forall i | 0 <= i < |starships|
      ensures GetStarships(db, starships)[i].Some? <==> starships[i] in Ids(db.starships)
      ensures GetStarships(db, starships)[i].Some? ==>
        exists k :: IsLastWithId(db.starships, k) && db.starships[k] == GetStarships(db, starships)[i].value
    {
      LookupFindsLastRow(db.starships, starships[i]);
    }
  }

  /** Character.__resolveType: Human if the id is a human key, else Droid if it is a droid key, else null. */
  function CharacterType(db: Db, data: Record): (r: Option<Kind>)
  {
    if data.id in db.humanData then Some(HumanKind)
    else if data.id in db.droidData then Some(DroidKind)
    else None
  }

  /** SearchResult.__resolveType: Human, then Droid, then Starship, else null. */
  function SearchResultType(db: Db, data: Record): (r: Option<Kind>)
  {
    if data.id in db.humanData then Some(HumanKind)
    else if data.id in db.droidData then Some(DroidKind)
    else if data.id in db.starshipData then Some(StarshipKind)
    else None
  }

  /**
   * A character getCharacter returns always resolves to a type, and it is
   * Human exactly when the id is a human id.
   */
  lemma CharacterTypeOfLookup(db: Db, id: string)
    requires Indexed(db)
    requires GetCharacter(db, id).Some?
    ensures CharacterType(db, GetCharacter(db, id).value).Some?
    ensures CharacterType(db, GetCharacter(db, id).value) == Some(HumanKind) <==> id in Ids(db.humans)
    ensures CharacterType(db, GetCharacter(db, id).value) == Some(DroidKind) <==> id !in Ids(db.humans) && id in Ids(db.droids)
  {
    TableIndexLastWins(db.humans);
    TableIndexLastWins(db.droids);
  }

  /**
   * Every row of the seed tables resolves to a search-result type. The type
   * is that of the first table, in the order humans, droids, starships, that
   * carries the id; so a row resolves to its own table's type when no
   * earlier table shares its id.
   */
  lemma SearchResultTypeOfRow(db: Db, row: Record)
    requires Indexed(db)
    requires row in db.humans + db.droids + db.starships
    ensures SearchResultType(db, row).Some?
    ensures SearchResultType(db, row) == Some(HumanKind) <==> row.id in Ids(db.humans)
    ensures row in db.droids && row.id !in Ids(db.humans) ==> SearchResultType(db, row) == Some(DroidKind)
    ensures row in db.starships && row.id !in Ids(db.humans) + Ids(db.droids) ==> SearchResultType(db, row) == Some(StarshipKind)
  {
    TableIndexKeys(db.humans);
    TableIndexKeys(db.droids);
    if row in db.humans {
      RowIdIndexed(db.humans, row);
    } else if row in db.droids {
      RowIdIndexed(db.droids, row);
    } else {
      assert row in db.starships;
      RowIdIndexed(db.starships, row);
    }
  }
}
