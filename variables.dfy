/**
 * Type-tagged workflow variables and the selectors that address them.
 * A variable is never changed in place: a write produces a copy with a
 * new value and the same identity fields.
 */
module Variables {

  /** An ordered path of segments: the scope first, then the name within it. */
  type Selector = seq<string>

  /** The value-type tag a variable declares. */
  datatype ValueType = StringType | ArrayStringType

  /** The payload of a variable. */
  datatype Value = Str(s: string) | ArrStr(items: seq<string>)

  datatype Variable = Variable(
    id: string,
    name: string,
    description: string,
    selector: Selector,
    valueType: ValueType,
    value: Value)

  /** The value type a payload actually has. */
  function TypeOf(v: Value): ValueType
  {
    match v
    case Str(_) => StringType
    case ArrStr(_) => ArrayStringType
  }

  /** The declared tag and the payload agree. */
  predicate WellTyped(v: Variable)
  {
    TypeOf(v.value) == v.valueType
  }

  predicate IsEmpty(v: Value)
  {
    match v
    case Str(s) => s == ""
    case ArrStr(items) => items == []
  }

  /** The empty form of a value type: what a clear writes. */
  function ZeroValue(t: ValueType): (r: Value)
    ensures TypeOf(r) == t && IsEmpty(r)
    ensures forall v: Value :: TypeOf(v) == t && IsEmpty(v) ==> v == r
  {
    match t
    case StringType => Str("")
    case ArrayStringType => ArrStr([])
  }

  /** A string variable with the default (empty) description and selector. */
  function StringVariable(id: string, name: string, value: string): (v: Variable)
    ensures WellTyped(v) && v.valueType == StringType
    ensures v.id == id && v.name == name && v.value == Str(value)
    ensures v.description == "" && v.selector == []
  {
    Variable(id, name, "", [], StringType, Str(value))
  }

  /** An array-of-string variable with the default description and selector. */
  function ArrayStringVariable(id: string, name: string, value: seq<string>): (v: Variable)
    ensures WellTyped(v) && v.valueType == ArrayStringType
    ensures v.id == id && v.name == name && v.value == ArrStr(value)
    ensures v.description == "" && v.selector == []
  {
    Variable(id, name, "", [], ArrayStringType, ArrStr(value))
  }

  /** Two variables agree on every field except the value. */
  predicate SameIdentity(a: Variable, b: Variable)
  {
    && a.id == b.id
    && a.name == b.name
    && a.description == b.description
    && a.selector == b.selector
    && a.valueType == b.valueType
  }

  /** The copy of `v` that carries `value`; nothing else differs. */
  function WithValue(v: Variable, value: Value): (r: Variable)
    ensures SameIdentity(r, v) && r.value == value
    ensures WellTyped(r) <==> TypeOf(value) == v.valueType
  {
    v.(value := value)
  }
}
