/** The two decisions the `@NSModelActor` and `@NSMainModelActor` macros
    make before expanding: whether to generate an initializer (from the
    attribute's `disableGenerateInit:` argument) and whether the attached
    declaration is `public`. Syntax nodes are abstracted: an attribute is its
    optional labelled argument list, a declaration is the names of its modifiers. */
module MacroHelper {

  datatype Option<T> = None | Some(value: T)

  /** An argument expression: a boolean literal with its token text, or anything else. */
  datatype Expression = BooleanLiteral(literal: string) | OtherExpression(text: string)

  datatype LabeledArgument = LabeledArgument(labelText: Option<string>, expression: Expression)

  /** The attribute node; `arguments` is `None` when it has no argument
      clause or one that is not a labelled expression list. */
  datatype Attribute = Attribute(arguments: Option<seq<LabeledArgument>>)

  const DisableGenerateInitLabel: string := "disableGenerateInit"

  /** An argument that decides the outcome: labelled `disableGenerateInit`
      and given as a boolean literal. */
  predicate Decides(argument: LabeledArgument) {
    argument.labelText == Some(DisableGenerateInitLabel) && argument.expression.BooleanLiteral?
  }

  /** `k` is the first deciding argument of `arguments`. */
  ghost predicate IsFirstDeciding(arguments: seq<LabeledArgument>, k: int) {
    0 <= k < |arguments| && Decides(arguments[k]) && forall j | 0 <= j < k :: !Decides(arguments[j])
  }

  /** The scan over the argument list: the first deciding argument gives the
      answer (generate unless its literal is `true`); with none, generate. */
  function FirstDecision(arguments: seq<LabeledArgument>): (generate: bool)
    ensures (forall i | 0 <= i < |arguments| :: !Decides(arguments[i])) ==> generate
    ensures forall k | IsFirstDeciding(arguments, k) :: generate == (arguments[k].expression.literal != "true")
  {
    if arguments == [] then true
    else if Decides(arguments[0]) then arguments[0].expression.literal != "true"
    else
      assert forall k | IsFirstDeciding(arguments, k) :: IsFirstDeciding(arguments[1..], k - 1);
      FirstDecision(arguments[1..])
  }

  /** Whether the member macro emits an initializer: always when the
      attribute has no labelled argument list, otherwise as the first
      deciding argument says, defaulting to yes. */
  function ShouldGenerateInitializer(node: Attribute): (generate: bool)
    ensures node.arguments.None? ==> generate
    ensures node.arguments.Some? && (forall i | 0 <= i < |node.arguments.value| :: !Decides(node.arguments.value[i]))
      ==> generate
    ensures node.arguments.Some? ==>
      forall k | IsFirstDeciding(node.arguments.value, k) :: generate == (node.arguments.value[k].expression.literal != "true")
  {
    match node.arguments
    case None => true
    case Some(arguments) => FirstDecision(arguments)
  }

  /** Arguments before the first deciding one never matter. */
  lemma {:induction false} NonDecidingArgumentsSkipped(skipped: seq<LabeledArgument>, arguments: seq<LabeledArgument>)
    requires forall i | 0 <= i < |skipped| :: !Decides(skipped[i])
    ensures FirstDecision(skipped + arguments) == FirstDecision(arguments)
  {
    if skipped != [] {
      assert (skipped + arguments)[0] == skipped[0];
      assert (skipped + arguments)[1..] == skipped[1..] + arguments;
      assert forall i | 0 <= i < |skipped| - 1 :: skipped[1..][i] == skipped[i + 1];
      NonDecidingArgumentsSkipped(skipped[1..], arguments);
    } else {
      assert skipped + arguments == arguments;
    }
  }

  /** Once a deciding argument has occurred, later arguments never change the result. */
  lemma {:induction false} LaterArgumentsIgnored(arguments: seq<LabeledArgument>, later: seq<LabeledArgument>)
    requires exists k | 0 <= k < |arguments| :: Decides(arguments[k])
    ensures FirstDecision(arguments + later) == FirstDecision(arguments)
  {
    if !Decides(arguments[0]) {
      var k :| 0 <= k < |arguments| && Decides(arguments[k]);
      assert Decides(arguments[1..][k - 1]);
      assert (arguments + later)[1..] == arguments[1..] + later;
      LaterArgumentsIgnored(arguments[1..], later);
    }
  }

  function DisableGenerateInit(literal: string): LabeledArgument {
    LabeledArgument(Some(DisableGenerateInitLabel), BooleanLiteral(literal))
  }

  /** Writing the declared default `disableGenerateInit: false` behaves like
      omitting the argument; `disableGenerateInit: true` suppresses the initializer. */
  lemma DisableGenerateInitLiterals()
    ensures ShouldGenerateInitializer(Attribute(Some([DisableGenerateInit("false")])))
      == ShouldGenerateInitializer(Attribute(None))
      == ShouldGenerateInitializer(Attribute(Some([])))
      == true
    ensures !ShouldGenerateInitializer(Attribute(Some([DisableGenerateInit("true")])))
  {
  }

  /** Whether the declaration is public: some modifier is named `public`. */
  function IsPublic(modifiers: seq<string>): (isPublic: bool)
    ensures isPublic <==> exists i | 0 <= i < |modifiers| :: modifiers[i] == "public"
  {
    if modifiers == [] then false
    else
      assert forall i | 1 <= i < |modifiers| :: modifiers[i] == modifiers[1..][i - 1];
      modifiers[0] == "public" || IsPublic(modifiers[1..])
  }
}
