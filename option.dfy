/** The option records of cmdlp: a closed sum of a toggle and a value option.
    Both variants share the identity fields (short flag, long flag, description);
    the C++ class hierarchy with virtual get_value_length and dynamic_cast
    becomes one datatype and pattern matching. */
module OptionTypes {

  datatype Option =
    | Toggle(optc: string, opts: string, description: string, toggled: bool)
    | Value(optc: string, opts: string, description: string, value: string, required: bool)

  /** The text an option renders for its current value: the value verbatim,
      or the literal "true"/"false" for a toggle. */
  function RenderValue(o: Option): (r: string)
    ensures o.Value? ==> r == o.value
    ensures o.Toggle? ==> (r == "true" <==> o.toggled) && (r == "false" <==> !o.toggled)
  {
    match o
    case Toggle(_, _, _, t) => if t then "true" else "false"
    case Value(_, _, _, v, _) => v
  }

  /** get_value_length: the width an option reserves in the help value column.
      A toggle always reserves the width of "false", whatever its state. */
  function ValueLength(o: Option): (r: nat)
    ensures o.Value? ==> r == |o.value|
    ensures o.Toggle? ==> r == |"false"|
  {
    match o
    case Toggle(_, _, _, _) => 5
    case Value(_, _, _, v, _) => |v|
  }

  /** optc_to_string: the short-flag string of a single character, "-" followed by it. */
  function OptcToString(c: char): (r: string)
    ensures |r| == 2 && r[0] == '-' && r[1] == c
  {
    ['-', c]
  }

  /** The reserved width always fits the rendered value, so help padding never has to cut it. */
  lemma ValueLengthCoversRendered(o: Option)
    ensures |RenderValue(o)| <= ValueLength(o)
    ensures o.Value? ==> |RenderValue(o)| == ValueLength(o)
  {
  }
}
