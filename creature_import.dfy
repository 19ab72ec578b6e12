/** app/importer/creatures.py, lines 41-111, `creatures_importer`: one
    transaction that reads the reference tables, builds the bio table,
    transforms every creature row and upserts the batch. Any error aborts
    the transaction, so the creature table is left as it was. */
module CreatureImport {
  import opened Results
  import opened CreatureData
  import opened ReferenceIndex
  import opened BioTable
  import opened RowTransform
  import opened UpsertWriter

  /** The batch the importer writes, or the error that aborts it: the bio
      file is read first, then every creature row in order, and a batch in
      which two records share a slug is refused by the database. */
  function ImportBatch(refs: References, bioRows: seq<Row>, creatureRows: seq<Row>, env: Env): Result<seq<Creature>, ImportError>
  {
    var bios :- BioTableOf(bioRows);
    var batch :- TransformAll(creatureRows, BuildIndexes(refs), bios, env);
    if DistinctSlugs(batch) then Success(batch) else Failure(DuplicateSlugInBatch)
  }

  /** A successful import writes one record per creature row, in order, each
      the transform of its row against the reference indexes and the bio
      table, and no two of them share a slug. */
  lemma ImportBatchRecords(refs: References, bioRows: seq<Row>, creatureRows: seq<Row>, env: Env)
    requires ImportBatch(refs, bioRows, creatureRows, env).Success?
    ensures BioTableOf(bioRows).Success?
    ensures var batch := ImportBatch(refs, bioRows, creatureRows, env).value;
            && DistinctSlugs(batch)
            && |batch| == |creatureRows|
            && forall i :: 0 <= i < |creatureRows| ==>
                 Transformed(creatureRows[i], BuildIndexes(refs), BioTableOf(bioRows).value, env) == Success(batch[i])
  {
    TransformAllOnePerRow(creatureRows, BuildIndexes(refs), BioTableOf(bioRows).value, env);
  }

  /** After a successful import, every creature row is stored under the
      default slug of its name, with its name and every other column of its
      record. */
  lemma ImportStoresEveryRow(t: Table, refs: References, bioRows: seq<Row>, creatureRows: seq<Row>, env: Env, now: int, i: int)
    requires TableInvariant(t)
    requires ImportBatch(refs, bioRows, creatureRows, env).Success?
    requires 0 <= i < |creatureRows|
    ensures Name in creatureRows[i]
    ensures var batch := ImportBatch(refs, bioRows, creatureRows, env).value;
            var after := UpsertAll(t, batch, now);
            var s := env.defaultSlug(creatureRows[i][Name]);
            && i < |batch|
            && s in after.rows
            && after.rows[s].name == creatureRows[i][Name]
            && Carries(after.rows[s], batch[i])
  {
    var ix := BuildIndexes(refs);
    var bios := BioTableOf(bioRows).value;
    var batch := ImportBatch(refs, bioRows, creatureRows, env).value;
    ImportBatchRecords(refs, bioRows, creatureRows, env);
    TransformedFields(creatureRows[i], ix, bios, env);
    UpsertAllRecord(t, batch, now, i);
  }

  /** Running the importer twice on the same files and reference tables
      leaves the creature table as the first run left it, except for
      `updated_at`. */
  lemma ImportIdempotent(t: Table, refs: References, bioRows: seq<Row>, creatureRows: seq<Row>, env: Env, now1: int, now2: int)
    requires TableInvariant(t)
    requires ImportBatch(refs, bioRows, creatureRows, env).Success?
    ensures var batch := ImportBatch(refs, bioRows, creatureRows, env).value;
            var once := UpsertAll(t, batch, now1);
            var twice := UpsertAll(once, batch, now2);
            Content(twice) == Content(once) && twice.nextId == once.nextId
  {
    ImportBatchRecords(refs, bioRows, creatureRows, env);
    UpsertAllIdempotent(t, ImportBatch(refs, bioRows, creatureRows, env).value, now1, now2);
  }

  /** The importer's transaction against `table`, with `now` the value of
      `now()` in the upsert statement. On any error nothing is written. */
  method ImportCreatures(table: CreatureTable, refs: References, bioRows: seq<Row>, creatureRows: seq<Row>, env: Env, now: int)
    returns (r: Result<seq<Creature>, ImportError>)
    requires table.Valid()
    modifies table
    ensures table.Valid()
    ensures r == ImportBatch(refs, bioRows, creatureRows, env)
    ensures r.Failure? ==> table.State() == old(table.State())
    ensures r.Success? ==> table.State() == UpsertAll(old(table.State()), r.value, now)
  {
    var ix := BuildIndexes(refs);
    var bios := BuildBioTable(bioRows);
    if bios.Failure? {
      return Failure(bios.error);
    }
    var batch := TransformRows(creatureRows, ix, bios.value, env);
    if batch.Failure? {
      return Failure(batch.error);
    }
    if !DistinctSlugs(batch.value) {
      return Failure(DuplicateSlugInBatch);
    }
    table.Upsert(batch.value, now);
    r := batch;
  }
}
