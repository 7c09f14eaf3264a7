/**
 * Inbound validation (src/rpc/server/dispatcher.ts:128-148): the `tChannel`
 * validator that resolves a reference token `{guid}` back to a live dispatcher,
 * and `_validateParams`, which picks the generated validator for a
 * type and method by its scheme name.
 */
module Validation {
  import opened Wrappers
  import opened Payloads
  import opened Tree
  import opened Encoding

  /** A generated validator: normalises `arg` found at `path`, or throws a ValidationError. */
  type Validator = (Payload, string) -> Result<Payload, string>

  /** What `tChannel` reads of the dispatcher registered under a guid. */
  datatype Entry = Entry(id: NodeId, typeName: string)

  /** The connection's `_dispatchers` map, as `tChannel` sees it. */
  function RegistryView(nodes: seq<DispatcherRec>, dispatchers: map<string, NodeId>): (v: map<string, Entry>)
    requires forall g :: g in dispatchers ==> dispatchers[g] < |nodes|
    ensures v.Keys == dispatchers.Keys
    ensures forall g :: g in v ==> v[g] == Entry(dispatchers[g], nodes[dispatchers[g]].typeName)
  {
    map g | g in dispatchers :: Entry(dispatchers[g], nodes[dispatchers[g]].typeName)
  }

  /** The argument is an object whose `guid` property is a string. */
  predicate IsGuidToken(arg: Payload) {
    arg.Obj? && "guid" in arg.fields && arg.fields["guid"].Str?
  }

  /**
   * The validator `tChannel(name)` applied to `arg`: a token for a registered
   * dispatcher whose type is `name` (any type when `name` is "*") becomes that
   * dispatcher; everything else is a ValidationError.
   */
  function TChannel(registry: map<string, Entry>, name: string, arg: Payload, path: string): (r: Result<Payload, string>)
    ensures r.Success? <==>
      && IsGuidToken(arg)
      && arg.fields["guid"].s in registry
      && (name == "*" || registry[arg.fields["guid"].s].typeName == name)
    ensures r.Success? ==> r.value == Node(registry[arg.fields["guid"].s].id)
    ensures !IsGuidToken(arg) ==> r == Failure(path + ": expected " + name)
  {
    if IsGuidToken(arg) then
      var guid := arg.fields["guid"].s;
      if guid !in registry then
        Failure(path + ": no object with guid " + guid)
      else if name != "*" && registry[guid].typeName != name then
        Failure(path + ": object with guid " + guid + " has type " + registry[guid].typeName + ", expected " + name)
      else
        Success(Node(registry[guid].id))
    else
      Failure(path + ": expected " + name)
  }

  /** `tChannel` itself: the validator factory handed to `createScheme`, one validator per expected type name. */
  function TChannelFactory(registry: map<string, Entry>): (f: string -> Validator)
    ensures forall name, arg, path :: f(name)(arg, path).Success? <==>
      && IsGuidToken(arg)
      && arg.fields["guid"].s in registry
      && (name == "*" || registry[arg.fields["guid"].s].typeName == name)
  {
    name => (arg, path) => TChannel(registry, name, arg, path)
  }

  /** A live registered dispatcher encoded as its token validates back to itself. */
  lemma TokenResolvesToDispatcher(nodes: seq<DispatcherRec>, dispatchers: map<string, NodeId>, d: NodeId, name: string, path: string)
    requires forall g :: g in dispatchers ==> dispatchers[g] < |nodes|
    requires d < |nodes| && nodes[d].guid in dispatchers && dispatchers[nodes[d].guid] == d
    requires name == "*" || name == nodes[d].typeName
    ensures ReplaceDispatchersWithGuids(Node(d), true, nodes).Success?
    ensures TChannel(RegistryView(nodes, dispatchers), name,
                     ReplaceDispatchersWithGuids(Node(d), true, nodes).value, path) == Success(Node(d))
  {
  }

  /** A token names only a registered dispatcher, and only one of the expected type. */
  lemma TChannelRejects(registry: map<string, Entry>, name: string, arg: Payload, path: string)
    ensures !IsGuidToken(arg) ==> TChannel(registry, name, arg, path) == Failure(path + ": expected " + name)
    ensures IsGuidToken(arg) && arg.fields["guid"].s !in registry ==>
      TChannel(registry, name, arg, path) == Failure(path + ": no object with guid " + arg.fields["guid"].s)
    ensures IsGuidToken(arg) && arg.fields["guid"].s in registry && name != "*" &&
            registry[arg.fields["guid"].s].typeName != name ==>
      TChannel(registry, name, arg, path) ==
        Failure(path + ": object with guid " + arg.fields["guid"].s + " has type " +
                registry[arg.fields["guid"].s].typeName + ", expected " + name)
  {
  }

  /**
   * Upper-casing of one character as the JavaScript runtime does it. The full
   * Unicode case mapping is not modelled: it is a parameter, and may turn one
   * character into several ("ß" becomes "SS").
   */
  type CaseMap = char -> string

  /** The part of the runtime's upper-casing fixed here: ASCII letters a-z become A-Z. */
  function ToUpper(c: char): (u: char)
    ensures 'a' <= c <= 'z' ==> 'A' <= u <= 'Z' && u as int == c as int - 32
    ensures !('a' <= c <= 'z') ==> u == c
  {
    if 'a' <= c <= 'z' then (c as int - 32) as char else c
  }

  /** A case map agrees with the runtime on the ASCII lower-case letters. */
  predicate AsciiFaithful(upper: CaseMap) {
    forall c :: 'a' <= c <= 'z' ==> upper(c) == [ToUpper(c)]
  }

  /**
   * A case map agrees with the runtime on characters outside the Basic
   * Multilingual Plane: `method[0]` is then a lone high surrogate, which
   * upper-casing leaves as it is, so the whole character is kept.
   */
  predicate AstralKept(upper: CaseMap) {
    forall c: char :: c as int >= 0x1_0000 ==> upper(c) == [c]
  }

  /**
   * Stands in for the JavaScript engine's TypeError message when the method
   * name is empty or not a string, so that its first character cannot be
   * upper-cased; the engine's own wording is not part of this model.
   */
  const MethodNameTypeError := "TypeError: method is not a non-empty string"

  /**
   * The scheme name of a type and method: the type, the method with its first
   * character upper-cased, then "Params".
   */
  function SchemeName(upper: CaseMap, typeName: string, methodName: Payload): (r: Result<string, string>)
    ensures r.Success? <==> methodName.Str? && |methodName.s| > 0
    ensures r.Failure? ==> r.error == MethodNameTypeError
    ensures r.Success? ==>
      var u := upper(methodName.s[0]);
      && |r.value| == |typeName| + |u| + |methodName.s| - 1 + 6
      && r.value[..|typeName|] == typeName
      && r.value[|typeName|..|typeName| + |u|] == u
      && r.value[|typeName| + |u| .. |r.value| - 6] == methodName.s[1..]
      && r.value[|r.value| - 6..] == "Params"
  {
    if methodName.Str? && |methodName.s| > 0 then
      Success(typeName + upper(methodName.s[0]) + methodName.s[1..] + "Params")
    else
      Failure(MethodNameTypeError)
  }

  /** A method starting with an ASCII lower-case letter gets that letter in upper case. */
  lemma SchemeNameAscii(upper: CaseMap, typeName: string, m: string)
    requires AsciiFaithful(upper) && |m| > 0 && 'a' <= m[0] <= 'z'
    ensures SchemeName(upper, typeName, Str(m)) == Success(typeName + [ToUpper(m[0])] + m[1..] + "Params")
  {
  }

  /** A method starting outside the Basic Multilingual Plane keeps its name unchanged in the scheme name. */
  lemma SchemeNameAstral(upper: CaseMap, typeName: string, m: string)
    requires AstralKept(upper) && |m| > 0 && m[0] as int >= 0x1_0000
    ensures SchemeName(upper, typeName, Str(m)) == Success(typeName + m + "Params")
  {
    assert [m[0]] + m[1..] == m;
    assert typeName + [m[0]] + m[1..] + "Params" == typeName + ([m[0]] + m[1..]) + "Params";
  }

  /**
   * When upper-casing never changes the length of a character, two methods of
   * one type share a scheme name exactly when they agree after the first
   * character is upper-cased ("foo" and "Foo" share one).
   */
  lemma SchemeNameInjective(upper: CaseMap, typeName: string, m1: string, m2: string)
    requires |m1| > 0 && |m2| > 0
    requires |upper(m1[0])| == 1 && |upper(m2[0])| == 1
    ensures SchemeName(upper, typeName, Str(m1)) == SchemeName(upper, typeName, Str(m2)) <==>
            upper(m1[0]) == upper(m2[0]) && m1[1..] == m2[1..]
  {
    var n1, n2 := SchemeName(upper, typeName, Str(m1)).value, SchemeName(upper, typeName, Str(m2)).value;
    if n1 == n2 {
      assert |m1| == |m2|;
      assert n1[|typeName|..|typeName| + 1] == n2[|typeName|..|typeName| + 1];
      assert n1[|typeName| + 1 .. |n1| - 6] == n2[|typeName| + 1 .. |n2| - 6];
    }
  }

  /**
   * A case map that turns one character into two makes different methods share
   * a scheme name: "ßa" and "SSa" both name "TSSaParams" on type "T".
   */
  lemma SchemeNameCollides(upper: CaseMap)
    requires upper('\U{DF}') == "SS" && upper('S') == "S"
    ensures SchemeName(upper, "T", Str("\U{DF}a")) == SchemeName(upper, "T", Str("SSa")) == Success("TSSaParams")
  {
    var m1, m2 := "\U{DF}a", "SSa";
    assert m1[0] == '\U{DF}' && m1[1..] == "a";
    assert m2[0] == 'S' && m2[1..] == "Sa";
    assert "T" + "SS" + "a" + "Params" == "TSSaParams";
    assert "T" + "S" + "Sa" + "Params" == "TSSaParams";
  }

  /**
   * `_validateParams`: the scheme entry named after the type and method, or a
   * ValidationError naming the pair when the scheme has none.
   */
  function ValidateParams(upper: CaseMap, scheme: map<string, Validator>, typeName: string, methodName: Payload, params: Payload)
    : (r: Result<Payload, string>)
    ensures SchemeName(upper, typeName, methodName).Failure? ==> r == Failure(MethodNameTypeError)
    ensures SchemeName(upper, typeName, methodName).Success? && SchemeName(upper, typeName, methodName).value !in scheme ==>
      r == Failure("Unknown scheme for " + typeName + "." + methodName.s)
    ensures SchemeName(upper, typeName, methodName).Success? && SchemeName(upper, typeName, methodName).value in scheme ==>
      r == scheme[SchemeName(upper, typeName, methodName).value](params, "")
  {
    match SchemeName(upper, typeName, methodName)
    case Failure(e) => Failure(e)
    case Success(name) =>
      if name !in scheme then Failure("Unknown scheme for " + typeName + "." + methodName.s)
      else scheme[name](params, "")
  }
}
