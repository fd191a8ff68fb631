/** The records the plan parser produces (src/index.ts:4-59, 84-97): actions,
    attribute values, changed resources and data sources, errors, and the
    result object that the parsing steps append to. */
module PlanTypes {
  import opened JsString

  datatype Action = Create | Destroy | Replace | Update | Read
  {
    /** The enum's string value. */
    function Name(): string
    {
      match this
      case Create => "create"
      case Destroy => "destroy"
      case Replace => "replace"
      case Update => "update"
      case Read => "read"
    }
  }

  /** ACTION_MAPPING: the five action symbols of a plan. Any other symbol
      (the object has no inherited key of three characters or fewer) maps to
      nothing. */
  function ActionFor(symbol: string): (r: Option<Action>)
    ensures r.Some? <==> symbol in {"+", "-", "-/+", "~", "<="}
  {
    if symbol == "+" then Some(Create)
    else if symbol == "-" then Some(Destroy)
    else if symbol == "-/+" then Some(Replace)
    else if symbol == "~" then Some(Update)
    else if symbol == "<=" then Some(Read)
    else None
  }

  datatype AttributeValueType = UnknownValue | StringValue | ComputedValue

  /** An attribute value; `value` is absent for the computed sentinel. */
  datatype AttributeValue = AttributeValue(valueType: AttributeValueType, value: Option<string>)

  /** One attribute's change. A missing old or new value is None; the
      forces-new-resource flag is absent (false) unless set. */
  datatype ChangedAttribute = ChangedAttribute(
    oldValue: Option<AttributeValue>,
    newValue: Option<AttributeValue>,
    forcesNewResource: bool)

  /** One resource or data source with its attributes keyed by name. */
  datatype Changed = Changed(
    modulePath: Option<string>,
    action: Action,
    resourceType: string,
    name: string,
    path: string,
    changedAttributes: map<string, ChangedAttribute>,
    newResourceRequired: bool,
    tainted: bool)

  /** The `code` of each error the parser reports; messages are not modelled. */
  datatype ParseError =
    | UnableToFindStartingPosition
    | UnableToFindEndingPosition
    | UnableToParseChangeLine
    | UnableToParseAttributeName
    | UnterminatedString
    | OrphanAttributeLine
    | UnableToParseLine
  {
    function Code(): string
    {
      match this
      case UnableToFindStartingPosition => "UNABLE_TO_FIND_STARTING_POSITION_WITHIN_STDOUT"
      case UnableToFindEndingPosition => "UNABLE_TO_FIND_ENDING_POSITION_WITHIN_STDOUT"
      case UnableToParseChangeLine => "UNABLE_TO_PARSE_CHANGE_LINE"
      case UnableToParseAttributeName => "UNABLE_TO_PARSE_ATTRIBUTE_NAME"
      case UnterminatedString => "UNTERMINATED_STRING"
      case OrphanAttributeLine => "ORPHAN_ATTRIBUTE_LINE"
      case UnableToParseLine => "UNABLE_TO_PARSE_LINE"
    }
  }

  /** How a call that may reach JSON.parse ends: normally with a value, or with
      the SyntaxError that JSON.parse throws and nothing in the parser catches. */
  datatype Completion<+T> = Normal(value: T) | Thrown

  /** The value of a ParseResult at one moment. */
  datatype PlanResult = PlanResult(
    errors: seq<ParseError>,
    changedResources: seq<Changed>,
    changedDataSources: seq<Changed>)

  /** Where the most recently opened change lives: which of the two lists, and
      its index there. It stands for the object reference `lastChange`, which
      aliases an element of one of the result arrays. */
  datatype ChangeRef = ChangeRef(dataSource: bool, index: nat)

  predicate ValidRef(r: PlanResult, ref: ChangeRef)
  {
    if ref.dataSource then ref.index < |r.changedDataSources| else ref.index < |r.changedResources|
  }

  function Record(r: PlanResult, ref: ChangeRef): Changed
    requires ValidRef(r, ref)
  {
    if ref.dataSource then r.changedDataSources[ref.index] else r.changedResources[ref.index]
  }

  const NO_CHANGES_STRING: string := "\nNo changes. Infrastructure is up-to-date.\n"
  const CONTENT_START_STRING: string := "\nTerraform will perform the following actions:\n"
  const CONTENT_END_STRING: string := "\nPlan:"
  const OLD_NEW_SEPARATOR: string := " => "
  const ATTRIBUTE_FORCES_NEW_RESOURCE_SUFFIX: string := " (forces new resource)"

  /** The result object that the parsing steps push onto. */
  class ParseResult {
    var errors: seq<ParseError>
    var changedResources: seq<Changed>
    var changedDataSources: seq<Changed>

    constructor ()
      ensures errors == [] && changedResources == [] && changedDataSources == []
    {
      errors, changedResources, changedDataSources := [], [], [];
    }

    function Snapshot(): PlanResult
      reads this
    {
      PlanResult(errors, changedResources, changedDataSources)
    }
  }
}
