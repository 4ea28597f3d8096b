/** Results and failures of the configuration helpers. */
module Outcomes {

  /** A Java reference that may be null (None). */
  datatype Option<+T> = None | Some(value: T)

  /** The exceptions the helpers raise, each carrying what it names. */
  datatype Failure =
    | MissingRequired(names: seq<string>)  // ConfigException listing the missing properties
    | UnsupportedConfig(name: string)      // ConfigException for a name the switch does not accept
    | NullPointer(name: string)            // NullPointerException raised while handling `name`

  /** Normal return, or the exception that ended the call. */
  datatype Outcome = Pass | Fail(error: Failure)

  const UnsupportedPrefix := "Unsupported or unknown config: "
  const MissingPrefix := "Missing required properties: "

  /** ArrayList.toString: the elements between brackets, separated by ", ". */
  function ListToString(xs: seq<string>): string {
    "[" + Join(xs) + "]"
  }

  function Join(xs: seq<string>): string {
    if xs == [] then ""
    else if |xs| == 1 then xs[0]
    else xs[0] + ", " + Join(xs[1..])
  }

  /** The message of a ConfigException; a NullPointerException has none of its own here. */
  function Message(f: Failure): (m: Option<string>)
    ensures m.None? <==> f.NullPointer?
    ensures f.UnsupportedConfig? ==> m.Some? && |m.value| == |UnsupportedPrefix| + |f.name|
                                       && m.value[..|UnsupportedPrefix|] == UnsupportedPrefix
                                       && m.value[|UnsupportedPrefix|..] == f.name
  {
    match f
    case MissingRequired(names) => Some(MissingPrefix + ListToString(names))
    case UnsupportedConfig(name) => Some(UnsupportedPrefix + name)
    case NullPointer(_) => None
  }

  /** The unsupported-config message identifies the offending name. */
  lemma UnsupportedMessageInjective(a: string, b: string)
    requires Message(UnsupportedConfig(a)) == Message(UnsupportedConfig(b))
    ensures a == b
  {
    var ma := Message(UnsupportedConfig(a)).value;
    assert a == ma[|UnsupportedPrefix|..];
  }
}
