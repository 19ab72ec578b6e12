/** app/importer/creatures.py, lines 92-111: the batch of creature records
    is written with one `INSERT ... ON CONFLICT (slug) DO UPDATE` statement.
    A record whose slug is new becomes a new row; a record whose slug is
    already stored overwrites the listed columns of that row and stamps
    `updated_at`. */
module UpsertWriter {
  import opened Results
  import opened CreatureData

  /** A row of the creature table. `updatedAt` is `None` while it still holds
      the column's default (a freshly inserted row) and `Some(t)` once an
      update has stamped it with the statement's `now()`. */
  datatype StoredCreature = StoredCreature(
    id: Id,
    slug: string,
    name: string,
    description: string,
    battleSprite: string,
    health: string,
    attack: string,
    intelligence: string,
    defense: string,
    speed: string,
    klassId: Id,
    raceId: Id,
    traitId: Id,
    sourceIds: seq<Id>,
    updatedAt: Option<int>)

  /** The creature table keyed by its unique `slug`, and the next id the
      database hands to an inserted row. */
  datatype Table = Table(rows: map<string, StoredCreature>, nextId: Id)

  /** Every key is its row's slug and ids are distinct, positive and
      already drawn. */
  ghost predicate TableInvariant(t: Table)
  {
    && 1 <= t.nextId
    && (forall s :: s in t.rows ==> t.rows[s].slug == s && 1 <= t.rows[s].id < t.nextId)
    && (forall s1, s2 :: s1 in t.rows && s2 in t.rows && s1 != s2 ==> t.rows[s1].id != t.rows[s2].id)
  }

  /** No two records of a batch share a slug (PostgreSQL refuses to let one
      statement update the same row twice). */
  predicate DistinctSlugs(batch: seq<Creature>)
  {
    forall i, j :: 0 <= i < j < |batch| ==> batch[i].slug != batch[j].slug
  }

  function BatchSlugs(batch: seq<Creature>): set<string>
  {
    set c | c in batch :: c.slug
  }

  /** The stored row holds every column the `set_` clause lists, with the
      record's values. */
  predicate Supplies(row: StoredCreature, c: Creature)
  {
    && row.name == c.name && row.description == c.description
    && row.battleSprite == c.battleSprite && row.health == c.health && row.attack == c.attack
    && row.intelligence == c.intelligence && row.defense == c.defense && row.speed == c.speed
    && row.klassId == c.klassId && row.raceId == c.raceId && row.traitId == c.traitId
    && row.sourceIds == c.sourceIds
  }

  /** The stored row holds the record's slug and every column it supplies. */
  predicate Carries(row: StoredCreature, c: Creature)
  {
    row.slug == c.slug && Supplies(row, c)
  }

  /** A record inserted as a new row under a freshly drawn id. */
  function Inserted(c: Creature, id: Id): StoredCreature
  {
    StoredCreature(id, c.slug, c.name, c.description, c.battleSprite, c.health, c.attack,
                   c.intelligence, c.defense, c.speed, c.klassId, c.raceId, c.traitId,
                   c.sourceIds, None)
  }

  /** Lines 95-109, the `set_` clause: the conflicting row takes the
      `excluded` (incoming) value of every listed column and `now()` as its
      `updated_at`; its id and slug are not in the list and stay. */
  function Merged(stored: StoredCreature, c: Creature, now: int): StoredCreature
  {
    stored.(name := c.name, description := c.description, battleSprite := c.battleSprite,
            health := c.health, attack := c.attack, intelligence := c.intelligence,
            defense := c.defense, speed := c.speed, klassId := c.klassId, raceId := c.raceId,
            traitId := c.traitId, sourceIds := c.sourceIds, updatedAt := Some(now))
  }

  /** One record of the statement: update on a slug conflict, else insert. */
  function UpsertOne(t: Table, c: Creature, now: int): Table
  {
    if c.slug in t.rows then
      t.(rows := t.rows[c.slug := Merged(t.rows[c.slug], c, now)])
    else
      Table(t.rows[c.slug := Inserted(c, t.nextId)], t.nextId + 1)
  }

  /** The whole statement: every record of the batch, in order. */
  function UpsertAll(t: Table, batch: seq<Creature>, now: int): Table
  {
    if |batch| == 0 then t
    else UpsertOne(UpsertAll(t, batch[..|batch| - 1], now), batch[|batch| - 1], now)
  }

  lemma DistinctSlugsPrefix(batch: seq<Creature>)
    requires |batch| > 0 && DistinctSlugs(batch)
    ensures DistinctSlugs(batch[..|batch| - 1])
    ensures batch[|batch| - 1].slug !in BatchSlugs(batch[..|batch| - 1])
  {
  }

  /** Nothing is deleted: the stored slugs afterwards are the old ones and
      those of the batch. */
  lemma {:induction false} UpsertAllKeys(t: Table, batch: seq<Creature>, now: int)
    ensures UpsertAll(t, batch, now).rows.Keys == t.rows.Keys + BatchSlugs(batch)
    ensures UpsertAll(t, batch, now).nextId >= t.nextId
  {
    if |batch| > 0 {
      var prefix := batch[..|batch| - 1];
      UpsertAllKeys(t, prefix, now);
      assert batch == prefix + [batch[|batch| - 1]];
      assert BatchSlugs(batch) == BatchSlugs(prefix) + {batch[|batch| - 1].slug};
    }
  }

  /** A stored row whose slug is not in the batch is left as it was. */
  lemma {:induction false} UpsertAllUntouched(t: Table, batch: seq<Creature>, now: int, s: string)
    requires s in t.rows && s !in BatchSlugs(batch)
    ensures s in UpsertAll(t, batch, now).rows
    ensures UpsertAll(t, batch, now).rows[s] == t.rows[s]
  {
    if |batch| > 0 {
      var prefix := batch[..|batch| - 1];
      assert BatchSlugs(prefix) <= BatchSlugs(batch);
      UpsertAllUntouched(t, prefix, now, s);
    }
  }

  /** Record `i` of the batch ends up stored under its slug with all its
      columns. If the slug was already stored, the row keeps its id and is
      stamped with `now`; otherwise it is a new row whose id was drawn fresh
      by this statement and whose `updated_at` is the column default. */
  lemma {:induction false} UpsertAllRecord(t: Table, batch: seq<Creature>, now: int, i: int)
    requires TableInvariant(t) && DistinctSlugs(batch) && 0 <= i < |batch|
    ensures var r := UpsertAll(t, batch, now);
            var c := batch[i];
            && c.slug in r.rows
            && Carries(r.rows[c.slug], c)
            && (if c.slug in t.rows then
                  r.rows[c.slug].id == t.rows[c.slug].id && r.rows[c.slug].updatedAt == Some(now)
                else
                  t.nextId <= r.rows[c.slug].id < r.nextId && r.rows[c.slug].updatedAt == None)
  {
    var n := |batch| - 1;
    var prefix := batch[..n];
    var p := UpsertAll(t, prefix, now);
    DistinctSlugsPrefix(batch);
    UpsertAllKeys(t, prefix, now);
    UpsertAllKeepsInvariant(t, prefix, now);
    if i == n {
      if batch[n].slug in t.rows {
        UpsertAllUntouched(t, prefix, now, batch[n].slug);
      }
    } else {
      assert prefix[i] == batch[i];
      assert batch[i].slug != batch[n].slug;
      UpsertAllRecord(t, prefix, now, i);
    }
  }

  /** The statement keeps every key equal to its row's slug and ids distinct. */
  lemma {:induction false} UpsertAllKeepsInvariant(t: Table, batch: seq<Creature>, now: int)
    requires TableInvariant(t)
    ensures TableInvariant(UpsertAll(t, batch, now))
  {
    if |batch| > 0 {
      var p := UpsertAll(t, batch[..|batch| - 1], now);
      UpsertAllKeepsInvariant(t, batch[..|batch| - 1], now);
      UpsertOneKeepsInvariant(p, batch[|batch| - 1], now);
    }
  }

  lemma UpsertOneKeepsInvariant(t: Table, c: Creature, now: int)
    requires TableInvariant(t)
    ensures TableInvariant(UpsertOne(t, c, now))
  {
    var r := UpsertOne(t, c, now);
    forall s | s in r.rows
      ensures r.rows[s].slug == s && 1 <= r.rows[s].id < r.nextId
    {
      if s != c.slug {
        assert r.rows[s] == t.rows[s];
      }
    }
    forall s1, s2 | s1 in r.rows && s2 in r.rows && s1 != s2
      ensures r.rows[s1].id != r.rows[s2].id
    {
      if c.slug !in t.rows && (s1 == c.slug || s2 == c.slug) {
        assert r.rows[c.slug].id == t.nextId;
      }
    }
  }

  /** A batch whose slugs are all stored already only updates: no row is
      added and the model's id counter does not advance. */
  lemma {:induction false} UpsertAllOnlyUpdates(t: Table, batch: seq<Creature>, now: int)
    requires BatchSlugs(batch) <= t.rows.Keys
    ensures UpsertAll(t, batch, now).rows.Keys == t.rows.Keys
    ensures UpsertAll(t, batch, now).nextId == t.nextId
  {
    UpsertAllKeys(t, batch, now);
    if |batch| > 0 {
      var prefix := batch[..|batch| - 1];
      assert BatchSlugs(prefix) <= BatchSlugs(batch);
      UpsertAllOnlyUpdates(t, prefix, now);
      assert batch[|batch| - 1].slug in BatchSlugs(batch);
    }
  }

  /** The table with every `updated_at` forgotten. */
  function Content(t: Table): map<string, StoredCreature>
  {
    map s | s in t.rows :: t.rows[s].(updatedAt := None)
  }

  /** Writing the same batch a second time, at any time, changes nothing
      but `updated_at`: no row is added and every column keeps its value. */
  lemma UpsertAllIdempotent(t: Table, batch: seq<Creature>, now1: int, now2: int)
    requires TableInvariant(t) && DistinctSlugs(batch)
    ensures var once := UpsertAll(t, batch, now1);
            var twice := UpsertAll(once, batch, now2);
            Content(twice) == Content(once) && twice.nextId == once.nextId
  {
    var once := UpsertAll(t, batch, now1);
    var twice := UpsertAll(once, batch, now2);
    UpsertAllKeys(t, batch, now1);
    UpsertAllOnlyUpdates(once, batch, now2);
    UpsertAllKeepsInvariant(t, batch, now1);
    forall s | s in once.rows
      ensures twice.rows[s].(updatedAt := None) == once.rows[s].(updatedAt := None)
    {
      if s in BatchSlugs(batch) {
        var i :| 0 <= i < |batch| && batch[i].slug == s;
        UpsertAllRecord(t, batch, now1, i);
        UpsertAllRecord(once, batch, now2, i);
      } else {
        UpsertAllUntouched(once, batch, now2, s);
      }
    }
  }

  /** The creature table as the importer's transaction sees it. */
  class CreatureTable {
    var rows: map<string, StoredCreature>
    var nextId: Id

    function State(): Table
      reads this
    {
      Table(rows, nextId)
    }

    ghost predicate Valid()
      reads this
    {
      TableInvariant(State())
    }

    /** An empty table whose first row will get id 1. */
    constructor ()
      ensures Valid() && rows == map[] && nextId == 1
    {
      rows := map[];
      nextId := 1;
    }

    /** Line 111: execute the upsert statement for `batch`, with `now` the
        value `now()` takes in it. */
    method Upsert(batch: seq<Creature>, now: int)
      requires Valid() && DistinctSlugs(batch)
      modifies this
      ensures Valid()
      ensures State() == UpsertAll(old(State()), batch, now)
    {
      var t := UpsertAll(State(), batch, now);
      UpsertAllKeepsInvariant(State(), batch, now);
      rows := t.rows;
      nextId := t.nextId;
    }
  }
}
