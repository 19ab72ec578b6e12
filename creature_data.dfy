/** The values the creature importer works on: CSV rows, the per-creature
    value dictionary, reference entities, errors, and the collaborators the
    importer calls but whose code is not part of this model. */
module CreatureData {
  import opened Results

  type Id = int

  /** A CSV header name: the ones the importer reads, and any other.
      `Other` stands only for a header that is none of the twelve named
      ones (`Other("name")` does not occur; that header is `Name`). */
  datatype CsvColumn =
    | Name | Health | Attack | Intelligence | Defense | Speed
    | Klass | Race | Sources | Trait | BattleSprite | Bio
    | Other(header: string)

  /** One CSV row as `csv.DictReader` yields it: header to cell text. */
  type Row = map<CsvColumn, string>

  /** The value dictionary built for one creature row once it is complete:
      the CSV cells kept as text, the slug, the resolved reference ids, the
      encoded sprite and the bio. The CSV's `klass`, `race`, `trait` and
      `sources` cells are popped from the dictionary, so they are not here. */
  datatype Creature = Creature(
    name: string,
    health: string,
    attack: string,
    intelligence: string,
    defense: string,
    speed: string,
    slug: string,
    klassId: Id,
    raceId: Id,
    traitId: Id,
    sourceIds: seq<Id>,
    battleSprite: string,
    description: string)

  /** A stored class, race, source or trait: only its id and slug are used. */
  datatype RefEntity = RefEntity(id: Id, slug: string)

  datatype RefKind = KlassRef | RaceRef | SourceRef | TraitRef

  /** Why an import run aborts (and its transaction rolls back). */
  datatype ImportError =
    | MissingColumn(column: CsvColumn)               // KeyError on a CSV row
    | UnknownReference(kind: RefKind, slug: string) // KeyError on a slug index
    | SpriteUnreadable(file: string)              // the sprite loader failed
    | DuplicateSlugInBatch                        // the database refuses the batch

  /** Functions the importer calls whose bodies are not modelled:
      `to_slug`, the slug `slug_default` derives from a name, and
      `load_icon_to_base64` applied to the sprite file under the sprite
      directory (`None` when the file cannot be read). */
  datatype Env = Env(
    toSlug: string -> string,
    defaultSlug: string -> string,
    loadSprite: string -> Option<string>)
}
