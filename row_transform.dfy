/** app/importer/creatures.py, lines 63-90: turn each creature CSV row into
    the record written to the creature table. */
module RowTransform {
  import opened Results
  import opened PyStr
  import opened CreatureData
  import opened ReferenceIndex

  /** Line 65, `{key: row[key] for key in NEEDED_KEYS}`: the first key of
      `NEEDED_KEYS` (name, health, attack, intelligence, defense, speed,
      klass, race, sources, trait, battle_sprite, in that order) that the
      row lacks, if any. */
  function FirstMissingKey(row: Row): Option<CsvColumn>
  {
    if Name !in row then Some(Name)
    else if Health !in row then Some(Health)
    else if Attack !in row then Some(Attack)
    else if Intelligence !in row then Some(Intelligence)
    else if Defense !in row then Some(Defense)
    else if Speed !in row then Some(Speed)
    else if Klass !in row then Some(Klass)
    else if Race !in row then Some(Race)
    else if Sources !in row then Some(Sources)
    else if Trait !in row then Some(Trait)
    else if BattleSprite !in row then Some(BattleSprite)
    else None
  }

  predicate HasNeededKeys(row: Row)
  {
    && Name in row && Health in row && Attack in row && Intelligence in row && Defense in row
    && Speed in row && Klass in row && Race in row && Sources in row && Trait in row && BattleSprite in row
  }

  /** A transformed row had every needed column, its references resolved
      and its sprite loaded; the record is built from those. */
  lemma TransformedParts(row: Row, ix: Indexes, bios: map<string, string>, env: Env)
    requires Transformed(row, ix, bios, env).Success?
    ensures HasNeededKeys(row)
    ensures ResolveReferences(row[Klass], row[Race], row[Trait], row[Sources], ix, env).Success?
    ensures env.loadSprite(row[BattleSprite]).Some?
    ensures var ids := ResolveReferences(row[Klass], row[Race], row[Trait], row[Sources], ix, env).value;
            var c := Transformed(row, ix, bios, env).value;
            c.klassId == ids.klassId && c.raceId == ids.raceId && c.traitId == ids.traitId &&
            c.sourceIds == ids.sourceIds
  {
  }

  /** The element step of `[slug_to_sources[to_slug(s)].id for s in sources]`. */
  function SourceResolver(index: map<string, RefEntity>, toSlug: string -> string): string -> Result<Id, ImportError>
  {
    piece => Resolve(index, SourceRef, toSlug(piece))
  }

  /** Lines 71 and 76-78: split the `sources` cell on commas and resolve
      every piece, in order. */
  function ResolveSources(index: map<string, RefEntity>, toSlug: string -> string, sources: string): Result<seq<Id>, ImportError>
  {
    MapResult(SourceResolver(index, toSlug), Split(sources, ','))
  }

  /** The ids a row's reference cells resolve to. */
  datatype ResolvedIds = ResolvedIds(klassId: Id, raceId: Id, traitId: Id, sourceIds: seq<Id>)

  /** Lines 73-78: class, race and trait, then the sources. */
  function ResolveReferences(klass: string, race: string, traitName: string, sources: string, ix: Indexes, env: Env): Result<ResolvedIds, ImportError>
  {
    var klassId :- Resolve(ix.klasses, KlassRef, env.toSlug(klass));
    var raceId :- Resolve(ix.races, RaceRef, env.toSlug(race));
    var traitId :- Resolve(ix.traits, TraitRef, env.toSlug(traitName));
    var sourceIds :- ResolveSources(ix.sources, env.toSlug, sources);
    Success(ResolvedIds(klassId, raceId, traitId, sourceIds))
  }

  /** One pass of the loop body (lines 65-88). The failures come in the
      order the body raises them: a missing column while projecting onto
      `NEEDED_KEYS`, then the class, race and trait lookups, then the
      sources in order, then the sprite. */
  function Transformed(row: Row, ix: Indexes, bios: map<string, string>, env: Env): Result<Creature, ImportError>
  {
    match FirstMissingKey(row)
    case Some(key) => Failure(MissingColumn(key))
    case None =>
      var ids :- ResolveReferences(row[Klass], row[Race], row[Trait], row[Sources], ix, env);
      var sprite := env.loadSprite(row[BattleSprite]);
      if sprite.None? then Failure(SpriteUnreadable(row[BattleSprite]))
      else
        var name := row[Name];
        Success(Creature(
          name := name,
          health := row[Health],
          attack := row[Attack],
          intelligence := row[Intelligence],
          defense := row[Defense],
          speed := row[Speed],
          slug := env.defaultSlug(name),
          klassId := ids.klassId,
          raceId := ids.raceId,
          traitId := ids.traitId,
          sourceIds := ids.sourceIds,
          battleSprite := sprite.value,
          description := if name in bios then bios[name] else ""))
  }

  /** The sources resolve exactly when every piece's slug is in the index,
      and then to one id per piece (one more than there are commas), in
      order. */
  lemma ResolveSourcesSpec(index: map<string, RefEntity>, toSlug: string -> string, sources: string)
    ensures var pieces := Split(sources, ',');
            var r := ResolveSources(index, toSlug, sources);
            && (r.Success? <==> forall i :: 0 <= i < |pieces| ==> toSlug(pieces[i]) in index)
            && (r.Success? ==>
                  && |r.value| == |pieces| == Count(sources, ',') + 1
                  && forall i :: 0 <= i < |pieces| ==> r.value[i] == index[toSlug(pieces[i])].id)
  {
    var pieces := Split(sources, ',');
    var f := SourceResolver(index, toSlug);
    MapResultSuccess(f, pieces);
    SplitCount(sources, ',');
    assert forall i :: 0 <= i < |pieces| ==> f(pieces[i]) == Resolve(index, SourceRef, toSlug(pieces[i]));
  }

  /** Piece `i` is the first whose slug is not in the index. */
  predicate FirstUnknown(index: map<string, RefEntity>, toSlug: string -> string, pieces: seq<string>, i: int)
  {
    && 0 <= i < |pieces|
    && toSlug(pieces[i]) !in index
    && forall j :: 0 <= j < i ==> toSlug(pieces[j]) in index
  }

  /** A failing source list fails on its first unknown piece. */
  lemma ResolveSourcesFirstFailure(index: map<string, RefEntity>, toSlug: string -> string, sources: string)
    requires ResolveSources(index, toSlug, sources).Failure?
    ensures exists i :: FirstUnknown(index, toSlug, Split(sources, ','), i) &&
              ResolveSources(index, toSlug, sources).error == UnknownReference(SourceRef, toSlug(Split(sources, ',')[i]))
  {
    var pieces := Split(sources, ',');
    var f := SourceResolver(index, toSlug);
    MapResultFirstFailure(f, pieces);
    var i :| 0 <= i < |pieces| && f(pieces[i]) == Failure(MapResult(f, pieces).error) &&
             forall j :: 0 <= j < i ==> f(pieces[j]).Success?;
    assert f(pieces[i]) == Resolve(index, SourceRef, toSlug(pieces[i]));
    forall j | 0 <= j < i ensures toSlug(pieces[j]) in index {
      assert f(pieces[j]) == Resolve(index, SourceRef, toSlug(pieces[j]));
    }
    assert FirstUnknown(index, toSlug, pieces, i);
  }

  /** The references resolve exactly when each slug is in its index, and
      then to the ids stored under those slugs. */
  lemma ResolveReferencesSpec(klass: string, race: string, traitName: string, sources: string, ix: Indexes, env: Env)
    ensures var r := ResolveReferences(klass, race, traitName, sources, ix, env);
            && (r.Success? <==>
                  && env.toSlug(klass) in ix.klasses
                  && env.toSlug(race) in ix.races
                  && env.toSlug(traitName) in ix.traits
                  && ResolveSources(ix.sources, env.toSlug, sources).Success?)
            && (r.Success? ==>
                  && r.value.klassId == ix.klasses[env.toSlug(klass)].id
                  && r.value.raceId == ix.races[env.toSlug(race)].id
                  && r.value.traitId == ix.traits[env.toSlug(traitName)].id
                  && r.value.sourceIds == ResolveSources(ix.sources, env.toSlug, sources).value)
  {
  }

  /** Everything a row needs for the loop body to get through it. */
  predicate Resolvable(row: Row, ix: Indexes, env: Env)
  {
    && HasNeededKeys(row)
    && env.toSlug(row[Klass]) in ix.klasses
    && env.toSlug(row[Race]) in ix.races
    && env.toSlug(row[Trait]) in ix.traits
    && (var pieces := Split(row[Sources], ',');
        forall i :: 0 <= i < |pieces| ==> env.toSlug(pieces[i]) in ix.sources)
    && env.loadSprite(row[BattleSprite]).Some?
  }

  /** A row is transformed exactly when all its columns are present, all
      its references resolve and its sprite can be read. */
  lemma TransformedSucceedsIff(row: Row, ix: Indexes, bios: map<string, string>, env: Env)
    ensures Transformed(row, ix, bios, env).Success? <==> Resolvable(row, ix, env)
  {
    if HasNeededKeys(row) {
      TransformedWithKeys(row, ix, bios, env);
      ResolveReferencesSpec(row[Klass], row[Race], row[Trait], row[Sources], ix, env);
      ResolveSourcesSpec(ix.sources, env.toSlug, row[Sources]);
    } else {
      assert FirstMissingKey(row).Some?;
    }
  }

  lemma TransformedWithKeys(row: Row, ix: Indexes, bios: map<string, string>, env: Env)
    requires HasNeededKeys(row)
    ensures Transformed(row, ix, bios, env).Success? <==>
              ResolveReferences(row[Klass], row[Race], row[Trait], row[Sources], ix, env).Success? &&
              env.loadSprite(row[BattleSprite]).Some?
  {
    assert FirstMissingKey(row).None?;
  }

  /** The CSV cells are passed through as text; the slug is the default
      derived from the name; the sprite is the loader's encoding of the
      named file; the description is the bio table's entry for the exact
      name, or empty when the name has none. */
  lemma TransformedFields(row: Row, ix: Indexes, bios: map<string, string>, env: Env)
    requires Transformed(row, ix, bios, env).Success?
    ensures HasNeededKeys(row)
    ensures Name in row && Health in row && Attack in row && Intelligence in row
    ensures Defense in row && Speed in row && BattleSprite in row
    ensures var c := Transformed(row, ix, bios, env).value;
            && c.name == row[Name] && c.health == row[Health] && c.attack == row[Attack]
            && c.intelligence == row[Intelligence] && c.defense == row[Defense] && c.speed == row[Speed]
            && c.slug == env.defaultSlug(row[Name])
            && env.loadSprite(row[BattleSprite]) == Some(c.battleSprite)
            && c.description == (if row[Name] in bios then bios[row[Name]] else "")
  {
  }

  /** The class, race and trait ids are those of stored entities whose
      slug is `to_slug` of the row's text. */
  lemma TransformedReferences(row: Row, refs: References, bios: map<string, string>, env: Env)
    requires Transformed(row, BuildIndexes(refs), bios, env).Success?
    ensures Klass in row && Race in row && Trait in row
    ensures var c := Transformed(row, BuildIndexes(refs), bios, env).value;
            && (exists e :: e in refs.klasses && e.slug == env.toSlug(row[Klass]) && c.klassId == e.id)
            && (exists e :: e in refs.races && e.slug == env.toSlug(row[Race]) && c.raceId == e.id)
            && (exists e :: e in refs.traits && e.slug == env.toSlug(row[Trait]) && c.traitId == e.id)
  {
    var ix := BuildIndexes(refs);
    TransformedParts(row, ix, bios, env);
    ResolveReferencesSpec(row[Klass], row[Race], row[Trait], row[Sources], ix, env);
    var c := Transformed(row, ix, bios, env).value;
    var klass, race, traitName := env.toSlug(row[Klass]), env.toSlug(row[Race]), env.toSlug(row[Trait]);
    assert c.klassId == ix.klasses[klass].id && c.raceId == ix.races[race].id && c.traitId == ix.traits[traitName].id;
    IndexedEntity(refs.klasses, klass);
    IndexedEntity(refs.races, race);
    IndexedEntity(refs.traits, traitName);
  }

  /** `source_ids` holds one id per comma-separated piece of `sources`
      (one more than there are commas), in order, each the id of the
      source whose slug is `to_slug` of that piece. */
  lemma TransformedSources(row: Row, ix: Indexes, bios: map<string, string>, env: Env)
    requires Transformed(row, ix, bios, env).Success?
    ensures Sources in row
    ensures var c := Transformed(row, ix, bios, env).value;
            var pieces := Split(row[Sources], ',');
            && |c.sourceIds| == |pieces| == Count(row[Sources], ',') + 1
            && forall i :: 0 <= i < |pieces| ==>
                 env.toSlug(pieces[i]) in ix.sources &&
                 c.sourceIds[i] == ix.sources[env.toSlug(pieces[i])].id
  {
    TransformedParts(row, ix, bios, env);
    ResolveReferencesSpec(row[Klass], row[Race], row[Trait], row[Sources], ix, env);
    ResolveSourcesSpec(ix.sources, env.toSlug, row[Sources]);
  }

  /** The batch the loop builds: one record per row, or the first failure. */
  function TransformAll(rows: seq<Row>, ix: Indexes, bios: map<string, string>, env: Env): Result<seq<Creature>, ImportError>
  {
    MapResult(RowTransformer(ix, bios, env), rows)
  }

  function RowTransformer(ix: Indexes, bios: map<string, string>, env: Env): Row -> Result<Creature, ImportError>
  {
    row => Transformed(row, ix, bios, env)
  }

  /** On success the batch has exactly one record per row, in row order. */
  lemma TransformAllOnePerRow(rows: seq<Row>, ix: Indexes, bios: map<string, string>, env: Env)
    ensures TransformAll(rows, ix, bios, env).Success? <==>
              forall i :: 0 <= i < |rows| ==> Transformed(rows[i], ix, bios, env).Success?
    ensures TransformAll(rows, ix, bios, env).Success? ==>
              var batch := TransformAll(rows, ix, bios, env).value;
              && |batch| == |rows|
              && forall i :: 0 <= i < |rows| ==> Transformed(rows[i], ix, bios, env) == Success(batch[i])
  {
    var f := RowTransformer(ix, bios, env);
    MapResultSuccess(f, rows);
    assert forall i :: 0 <= i < |rows| ==> f(rows[i]) == Transformed(rows[i], ix, bios, env);
  }

  /** A failing batch fails with the error of its first failing row. */
  lemma TransformAllFirstFailure(rows: seq<Row>, ix: Indexes, bios: map<string, string>, env: Env)
    requires TransformAll(rows, ix, bios, env).Failure?
    ensures exists i :: 0 <= i < |rows| &&
              Transformed(rows[i], ix, bios, env) == Failure(TransformAll(rows, ix, bios, env).error) &&
              forall j :: 0 <= j < i ==> Transformed(rows[j], ix, bios, env).Success?
  {
    var f := RowTransformer(ix, bios, env);
    MapResultFirstFailure(f, rows);
    assert forall i :: 0 <= i < |rows| ==> f(rows[i]) == Transformed(rows[i], ix, bios, env);
  }

  /** Lines 63-90: the loop over the creature rows, appending each
      finished value to `values`. */
  method TransformRows(rows: seq<Row>, ix: Indexes, bios: map<string, string>, env: Env)
    returns (r: Result<seq<Creature>, ImportError>)
    ensures r == TransformAll(rows, ix, bios, env)
  {
    var values: seq<Creature> := [];
    var i := 0;
    while i < |rows|
      invariant 0 <= i <= |rows|
      invariant TransformAll(rows[..i], ix, bios, env) == Success(values)
    {
      var value := Transformed(rows[i], ix, bios, env);
      MapResultStep(RowTransformer(ix, bios, env), rows, i);
      if value.Failure? {
        MapResultPrefixFailure(RowTransformer(ix, bios, env), rows, i + 1);
        return Failure(value.error);
      }
      values := values + [value.value];
      i := i + 1;
    }
    assert rows[..i] == rows;
    return Success(values);
  }
}
