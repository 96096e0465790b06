/** Contract families as they are declared: versions, models, migration steps and refusals. */
module Contracts {
  import opened Text

  /** A JSON value; a number is a numeral, as its decimal mantissa and exponent. */
  datatype Value =
    | Null
    | Bool(b: bool)
    | Number(mantissa: int, exponent: int)
    | Str(s: string)
    | List(items: seq<Value>)
    | Object(fields: map<string, Value>)

  type Record = map<string, Value>

  /** One version's record model: the constants its schema pins on the identity fields, whether
      strict validation accepts the remaining content, and the field values of the model object. */
  datatype Model = Model(idConst: Option<string>, versionConst: Option<string>,
                         accepts: Record -> bool, fields: Record -> Record)

  datatype MigrationStep = MigrationStep(fromVersion: string, toVersion: string, description: string,
                                         transform: Record -> Record)

  datatype Refusal = Refusal(fromVersion: string, description: string)

  datatype Definition = Definition(schemaId: string, currentVersion: string, models: map<string, Model>,
                                   migrations: seq<MigrationStep>, refusals: seq<Refusal>,
                                   legacyVersion: Option<string>)

  type Definitions = map<string, Definition>

  /** A validated record as the object of its family's current model. */
  datatype Instance = Instance(schemaId: string, version: string, fields: Record)

  datatype ContractError =
    | MissingIdentity | UnknownContract | UnsupportedVersion | UnsupportedFutureVersion
    | DeclaredRefusal | InvalidSource
    | NoMigrationPath | AmbiguousMigration
    | MissingModel    // a lookup in the model table that has no entry
    | ModelRejected   // the final model construction fails

  predicate WellKeyed(defs: Definitions) {
    forall id | id in defs :: defs[id].schemaId == id
  }

  /** The registry over `definitions`, or nothing when two share an id. */
  method NewRegistry(definitions: seq<Definition>) returns (r: Option<Definitions>)
    ensures r.Some? <==> forall i, j | 0 <= i < j < |definitions| :: definitions[i].schemaId != definitions[j].schemaId
    ensures r.Some? ==> WellKeyed(r.value) && forall i | 0 <= i < |definitions| ::
              definitions[i].schemaId in r.value && r.value[definitions[i].schemaId] == definitions[i]
    ensures r.Some? ==> forall id | id in r.value :: exists i :: 0 <= i < |definitions| && definitions[i].schemaId == id
  {
    var table: Definitions := map[];
    for k := 0 to |definitions|
      invariant WellKeyed(table)
      invariant forall id | id in table :: exists i :: 0 <= i < k && definitions[i].schemaId == id
      invariant forall i | 0 <= i < k :: definitions[i].schemaId in table && table[definitions[i].schemaId] == definitions[i]
      invariant forall i, j | 0 <= i < j < k :: definitions[i].schemaId != definitions[j].schemaId
    {
      if definitions[k].schemaId in table {
        return None;
      }
      table := table[definitions[k].schemaId := definitions[k]];
    }
    return Some(table);
  }
}
