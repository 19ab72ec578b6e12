# Creature importer model

This project models `creatures_importer` from the siralim-ultimate-api data importer, written in Dafny. The importer runs in a single database transaction:

1. It reads the class, race, source and trait tables. It indexes each table by slug.
2. It reads the bios CSV into a name-to-bio dictionary. Each bio has its line breaks joined by the regex `([^\n])\n` → `\1 `.
3. It turns every row of the creatures CSV into a value dictionary:
   - the stat cells are kept as text;
   - the slug is derived from the name;
   - class, race and trait become ids, and the comma-separated sources become a list of ids;
   - the battle sprite is loaded and base64-encoded;
   - the bio is looked up by name.
4. It writes the batch with one `INSERT … ON CONFLICT (slug) DO UPDATE` statement.

Any `KeyError` or I/O error aborts the transaction. The creature table is then unchanged.

Modules:

- `Results`: the `Result`/`Option` types, and `MapResult`, an in-order map where the first failure wins.
- `PyStr`: `str.split` on one separator character.
- `CreatureData`:
  - CSV rows, keyed by a `CsvColumn` header datatype;
  - the per-creature value record `Creature`;
  - reference entities and errors;
  - `Env`, the collaborators whose code is not modelled.
- `BioTable`: the regex rewrite `NormalizeBio`, the bio dictionary `BioTableOf`, and the loop `BuildBioTable` that fills it.
- `ReferenceIndex`: the slug dictionaries on lines 45-55, and the keyed lookup.
- `RowTransform`: the per-row transform `Transformed`, the whole batch `TransformAll`, and the loop `TransformRows`.
- `UpsertWriter`:
  - the creature table as a map from slug to stored row, plus an id counter;
  - the `ON CONFLICT` merge, as `UpsertOne`/`UpsertAll`;
  - the class `CreatureTable` whose `Upsert` runs the statement.
- `CreatureImport`: the whole transaction. `ImportCreatures` returns the error and leaves the table untouched, or writes the batch.

`to_slug` and `slug_default`, which derive slugs, are function-valued fields of `Env` and may be any function. No property depends on how slugs are computed. `Env.loadSprite` stands for `load_icon_to_base64` applied to the file under the battle-sprite directory; its code is not modelled. It returns `None` where `load_icon_to_base64` would raise, and the row then fails with `SpriteUnreadable`. The `now()` of the statement is a parameter.

A final newline that follows a non-newline is rewritten into a space like any other, so `"one\ntwo\n"` becomes `"one two "`. `BioTable.NormalizeBioTrailingNewline` proves this.

## Model

| member | source | states |
|---|---|---|
| BioTable.NormalizeBioPointwise | app/importer/creatures.py:18 | The regex substitution keeps the bio's length. Character `i` becomes a space exactly when it is a newline preceded by a non-newline; every other character is unchanged. |
| BioTable.NormalizeBioChangesOnlyNewlines | app/importer/creatures.py:18 | Only newlines change, and each changes into a space. A newline that survives is the first character or follows another newline. |
| BioTable.NormalizeBioFixedPoint | app/importer/creatures.py:18 | A bio is left unchanged if and only if no newline in it follows a non-newline. |
| BioTable.NormalizeBioNotIdempotent | app/importer/creatures.py:18 | Matches do not overlap, so the rewrite is not idempotent: `"a\n\n"` becomes `"a \n"` on one pass and `"a  "` on a second. |
| BioTable.NormalizeBioTrailingNewline | app/importer/creatures.py:61 | A final newline after text is replaced by a space, not kept (`"one\ntwo\n"` becomes `"one two "`). |
| BioTable.BioTableSuccess | app/importer/creatures.py:59-61 | Filling the bio dictionary succeeds if and only if every bios row has both a `bio` and a `name` cell. |
| BioTable.BioTableKeys | app/importer/creatures.py:59-61 | When every row has both cells, the dictionary's keys are exactly the names in the bios file. |
| BioTable.BioTableLastWins | app/importer/creatures.py:61 | The entry under a name is the normalised bio of the last row with that name. |
| BioTable.BioTableFirstFailure | app/importer/creatures.py:60-61 | A failing fill stops at the first incomplete row. It reports a missing `bio` before a missing `name`, because Python evaluates the right-hand side first. |
| BioTable.BuildBioTable | app/importer/creatures.py:57-61 | The loop over the bios rows produces exactly the dictionary `BioTableOf` describes, or its first error. |
| ReferenceIndex.IndexBySlugContents | app/importer/creatures.py:45-55 | Every entity's slug is a key of its category's index. Each key maps to one of the entities, and that entity carries the key as its slug. |
| ReferenceIndex.IndexedEntity | app/importer/creatures.py:46 | Looking up an indexed slug yields a stored entity with that slug. |
| ReferenceIndex.IndexBySlugLastWins | app/importer/creatures.py:46 | When several entities share a slug, the index keeps the last one. |
| ReferenceIndex.ResolveIndexed | app/importer/creatures.py:73-77 | Looking a slug up in a category's index succeeds if and only if some stored entity of that category has the slug. The result is the id of the last such entity. Otherwise the `KeyError` is reported as an unknown reference of that kind and slug. |
| PyStr.SplitCount | app/importer/creatures.py:71 | `split(",")` yields one more piece than the cell has commas, so an empty cell yields one empty piece. |
| PyStr.SplitPiecesLackSeparator | app/importer/creatures.py:71 | No piece of the split contains a comma. |
| PyStr.JoinSplit | app/importer/creatures.py:71 | Joining the pieces with commas gives back the original `sources` cell. |
| PyStr.SplitJoin | app/importer/creatures.py:71 | Splitting a comma-join of comma-free pieces gives back those pieces. |
| RowTransform.ResolveSourcesSpec | app/importer/creatures.py:71-78 | The source ids resolve if and only if every piece's slug is in the sources index. They then number one per piece, one more than the commas, in piece order, each the id stored under that piece's slug. |
| RowTransform.ResolveSourcesFirstFailure | app/importer/creatures.py:76-78 | Failed source resolution reports the first piece whose slug is unknown. |
| RowTransform.ResolveReferencesSpec | app/importer/creatures.py:73-78 | Class, race, trait and sources resolve if and only if each slug is in its index. They then resolve to the ids stored under those slugs. |
| RowTransform.TransformedSucceedsIff | app/importer/creatures.py:63-90 | A creature row is transformed if and only if three things hold: it has all eleven `NEEDED_KEYS`; its class, race, trait and every source slug are in their indexes; and its sprite can be loaded. |
| RowTransform.TransformedParts | app/importer/creatures.py:65-86 | A transformed row had every needed column, resolved its references and loaded its sprite. Its ids are those references. |
| RowTransform.TransformedFields | app/importer/creatures.py:65-88 | The stat cells and the name pass through unchanged. The slug is `slug_default` of the name and the sprite is the loader's encoding. The description is the bio under exactly that name, or `""` when there is none. |
| RowTransform.TransformedReferences | app/importer/creatures.py:68-75 | The class, race and trait ids each belong to a stored entity whose slug is `to_slug` of the row's cell. |
| RowTransform.TransformedSources | app/importer/creatures.py:71-78 | The source ids number one per comma-separated piece. The i-th is the id stored under `to_slug` of the i-th piece. |
| RowTransform.TransformAllOnePerRow | app/importer/creatures.py:63-90 | The batch succeeds if and only if every row transforms. It then holds exactly one value per row, in row order, each that row's transform. |
| RowTransform.TransformAllFirstFailure | app/importer/creatures.py:63-90 | A failing batch fails with the error of its first failing row. Every earlier row transforms. |
| RowTransform.TransformRows | app/importer/creatures.py:63-90 | The loop appending each row's value to `values` produces exactly `TransformAll`, including its first error. |
| UpsertWriter.UpsertAllKeys | app/importer/creatures.py:92-111 | Nothing is deleted. The stored slugs afterwards are the old ones plus the batch's, and the id counter never goes back. |
| UpsertWriter.UpsertAllUntouched | app/importer/creatures.py:92-111 | A stored creature whose slug is not in the batch is left exactly as it was. |
| UpsertWriter.UpsertAllRecord | app/importer/creatures.py:92-109 | Each record of the batch ends up under its slug with all its columns. If the slug was already stored, the row keeps its id and gets `updated_at = now`. Otherwise it is a new row with an id fresh to this statement and the default `updated_at`. |
| UpsertWriter.UpsertAllKeepsInvariant | app/importer/creatures.py:93-94 | Writing a batch keeps three facts true: every stored row sits under its own slug, ids are distinct and positive, and ids lie below the next id. |
| UpsertWriter.UpsertAllOnlyUpdates | app/importer/creatures.py:93-94 | A batch whose slugs are all stored already adds no row, and the model's id counter does not advance. |
| UpsertWriter.UpsertAllIdempotent | app/importer/creatures.py:92-111 | Writing the same batch again, at any time, changes nothing but `updated_at`. |
| UpsertWriter.CreatureTable.Upsert | app/importer/creatures.py:111 | Executing the statement moves the table to `UpsertAll` of its old state and keeps the table invariant. |
| CreatureImport.ImportBatchRecords | app/importer/creatures.py:57-92 | A successful import writes one record per creature row, in order, with distinct slugs. Each record is its row's transform against the reference indexes and the bio table. |
| CreatureImport.ImportStoresEveryRow | app/importer/creatures.py:63-111 | After a successful import, every creature row is stored under `slug_default` of its name. The row holds that name and every column of its record. |
| CreatureImport.ImportIdempotent | app/importer/creatures.py:41-111 | Running the importer twice on the same files and reference tables leaves the creature table as the first run left it, except for `updated_at`. |
| CreatureImport.ImportCreatures | app/importer/creatures.py:41-111 | The transaction returns exactly `ImportBatch`'s outcome. On any error the creature table is unchanged. On success the table is the old one with the batch upserted. |

## Left out

- SQL session and transaction: reading the four reference tables is modelled as lists of `(id, slug)` entities given as input. The rollback is modelled by leaving the table untouched on any error.
- CSV reading and file I/O: the bios and creatures files are given as sequences of rows, mapping header to cell. A short row, where `DictReader` fills `None`, and CSV quoting are not modelled.
- `os.path.join(BATTLE_SPRITES_PATH, battle_sprite)`: the path join is folded into the `loadSprite` collaborator, which is applied to the CSV cell.
- `to_slug`, `slug_default`, `load_icon_to_base64`: their code is not part of this model. They are arbitrary functions in `Env`, and an unreadable sprite is a `SpriteUnreadable` error.
- `now()`: the database clock is the `now` parameter of the statement.
- Numeric columns: health, attack, intelligence, defense and speed stay text. The database's coercion of them is not modelled.
- Row ids: ids are modelled as a counter that hands the next id to each inserted row. PostgreSQL sequence gaps are not modelled; such a gap is an id drawn for a row that then conflicts. The exact id values are therefore not a promise of the source.
- The column default of `updated_at` on insert: its value comes from the ORM table definition, which is not part of this model. It is modelled as `None`.
- UpsertWriter.CreatureTable.Upsert: two records with the same slug in one statement are refused by the database, not by the importer. So `Upsert` requires distinct slugs, and `ImportCreatures` reports `DuplicateSlugInBatch` instead of calling it.
- An empty creatures file: the model writes nothing. What SQLAlchemy does with `values([])` is not modelled.
- The value dictionary is a typed record. The popped keys `klass`, `race`, `trait` and `sources` and the renamed `battle_sprite` therefore have no field, and the dictionary's key order is not modelled.
- `BIO_KEYS`, lines 20-23, is never used by the importer.
- `NEEDED_KEYS` imported from the traits importer on line 1 is shadowed by the local list on lines 25-37, which is the one modelled.
