/** `@NSModelActor`: the extension macro makes the attached actor conform to
    `CoreDataEvolution.NSModelActor`; the member macro adds the nonisolated
    `modelExecutor` and `modelContainer` stored properties and, unless
    disabled, an initializer that takes a container and runs the actor on a
    new background context. Generated declarations are plain text. */
module ModelActorMacro {
  import Text
  import opened MacroHelper
  import opened Declarations

  const ProtocolName: string := EvolutionModule + "NSModelActor"
  const ExecutorType: string := EvolutionModule + "NSModelObjectContextExecutor"
  const ContextType: string := "NSManagedObjectContext"

  /** The extension expansion. `parsesAsExtension` stands for SwiftSyntax's
      check that the generated text is an extension declaration; when it
      fails nothing is generated. Otherwise exactly one extension is produced,
      declaring that the trimmed type conforms to `NSModelActor`. */
  function ExtensionExpansion(typeSyntax: string, parsesAsExtension: string -> bool): (extensions: seq<string>)
    ensures |extensions| <= 1
    ensures extensions != [] <==> parsesAsExtension(ExtensionDecl(TrimmedType(typeSyntax), ProtocolName))
    ensures extensions != [] ==> extensions[0] == ExtensionDecl(TrimmedType(typeSyntax), ProtocolName)
    ensures extensions != [] ==>
      && ExtensionKeyword <= extensions[0]
      && Text.EndsWith(extensions[0], ": " + ProtocolName + " {}")
      && (':' !in TrimmedType(typeSyntax) ==> ExtendedType(extensions[0]) == TrimmedType(typeSyntax))
  {
    var decl := ExtensionDecl(TrimmedType(typeSyntax), ProtocolName);
    if parsesAsExtension(decl) then [decl] else []
  }

  const ExecutorProperty: string := "nonisolated let modelExecutor: " + ExecutorType
  const ContainerProperty: string := "nonisolated let modelContainer: " + ContainerType

  /** The lines of the stored-property block: each property on its own line
      behind the access modifier, and a final newline. */
  function StoredPropertiesLines(access: string): seq<string> {
    [access + ExecutorProperty, access + ContainerProperty, ""]
  }

  /** The stored-property block, generated public or not: it reads back with
      that access and is not an initializer. */
  function StoredPropertiesDecl(isPublic: bool): (decl: string)
    ensures ReadsAsPublic(decl) == isPublic
    ensures !DeclaresInitializer(decl)
  {
    StoredPropertiesTextReadBack(isPublic);
    Text.JoinLines(StoredPropertiesLines(AccessModifier(isPublic)))
  }

  /** The proof of the contract above; in the function's body it costs the
      solver several times as much. */
  lemma StoredPropertiesTextReadBack(isPublic: bool)
    ensures var decl := Text.JoinLines(StoredPropertiesLines(AccessModifier(isPublic)));
      && ReadsAsPublic(decl) == isPublic
      && !DeclaresInitializer(decl)
  {
    var access := AccessModifier(isPublic);
    var lines := StoredPropertiesLines(access);
    var rest := ExecutorProperty + "\n" + Text.JoinLines(lines[1..]);
    assert Text.JoinLines(lines) == access + rest;
    assert rest[0] == 'n';
    AccessModifierRoundTrip(isPublic, rest);
  }

  const ParameterLabel: string := "container"
  /** What follows `init(container:` on the initializer's first line. */
  const InitializerHeadRest: string := " " + ContainerType + ") {"
  /** The initializer's first line, behind the access modifier. */
  const InitializerHead: string := InitializerKeyword + ParameterLabel + ":" + InitializerHeadRest

  /** The initializer's body and closing brace: it creates a background
      context from the container and initialises both stored properties. */
  const InitializerBody: seq<string> := [
    "    let context: " + ContextType,
    "    context = " + ParameterLabel + ".newBackgroundContext()",
    "    modelExecutor = " + ExecutorType + "(context: context)",
    "    modelContainer = " + ParameterLabel,
    "}" ]

  function InitializerLines(access: string): seq<string> {
    [access + InitializerHead] + InitializerBody
  }

  /** The initializer, generated public or not: it reads back as an
      initializer with that access whose first parameter is labelled
      `container`. */
  function InitializerDecl(isPublic: bool): (decl: string)
    ensures ReadsAsPublic(decl) == isPublic
    ensures DeclaresInitializer(decl)
    ensures InitializerLabel(decl) == ParameterLabel
  {
    InitializerTextReadBack(isPublic);
    Text.JoinLines(InitializerLines(AccessModifier(isPublic)))
  }

  /** The proof of the contract above; in the function's body it costs the
      solver several times as much. */
  lemma InitializerTextReadBack(isPublic: bool)
    ensures var decl := Text.JoinLines(InitializerLines(AccessModifier(isPublic)));
      && ReadsAsPublic(decl) == isPublic
      && DeclaresInitializer(decl)
      && InitializerLabel(decl) == ParameterLabel
  {
    assert ':' !in ParameterLabel;
    InitializerLinesReadBack(isPublic, ParameterLabel, InitializerHeadRest, InitializerBody);
  }

  /** The member expansion: the stored-property block, then the initializer
      when one is to be generated. Every declaration carries `public ` exactly
      when the attached declaration is public; an initializer is present
      exactly when `ShouldGenerateInitializer` holds, and its parameter is
      labelled `container`. */
  function MemberExpansion(node: Attribute, modifiers: seq<string>): (members: seq<string>)
    ensures |members| == (if ShouldGenerateInitializer(node) then 2 else 1)
    ensures members[0] == StoredPropertiesDecl(IsPublic(modifiers))
    ensures ShouldGenerateInitializer(node) ==> members[1] == InitializerDecl(IsPublic(modifiers))
    ensures forall d | d in members :: ReadsAsPublic(d) == IsPublic(modifiers)
    ensures (exists d | d in members :: DeclaresInitializer(d)) <==> ShouldGenerateInitializer(node)
    ensures forall d | d in members && DeclaresInitializer(d) :: InitializerLabel(d) == ParameterLabel
  {
    var isPublic := IsPublic(modifiers);
    var decl := StoredPropertiesDecl(isPublic);
    var initializer := if ShouldGenerateInitializer(node) then Some(InitializerDecl(isPublic)) else None;
    AssembleReadBack(decl, initializer, isPublic, ParameterLabel);
    Assemble(decl, initializer)
  }

  /** Split into lines, the stored-property block is the `modelExecutor`
      property and then the `modelContainer` property, each a `nonisolated
      let` behind the access modifier, and nothing after the final newline. */
  lemma StoredPropertiesDeclareExecutorAndContainer(isPublic: bool)
    ensures var lines := Text.SplitLines(StoredPropertiesDecl(isPublic));
      && |lines| == 3
      && ReadsAsPublic(lines[0]) == isPublic && DropAccessModifier(lines[0]) == ExecutorProperty
      && ReadsAsPublic(lines[1]) == isPublic && DropAccessModifier(lines[1]) == ContainerProperty
      && lines[2] == []
  {
    var access := AccessModifier(isPublic);
    var lines := StoredPropertiesLines(access);
    TemplateLinesUnbroken(access);
    Text.SplitJoinLines(lines);
    assert ExecutorProperty[0] == 'n' && ContainerProperty[0] == 'n';
    AccessModifierRoundTrip(isPublic, ExecutorProperty);
    AccessModifierRoundTrip(isPublic, ContainerProperty);
    assert lines[0] == access + ExecutorProperty && lines[1] == access + ContainerProperty;
  }

  /** Split into lines, the initializer's first line is, behind the access
      modifier, exactly `init(container: CoreData.NSPersistentContainer) {`:
      one parameter (the line has no comma), labelled `container`. Its body
      creates a background context from the container and initialises both
      `modelExecutor` (from that context) and `modelContainer`. */
  lemma InitializerSetsExecutorAndContainer(isPublic: bool)
    ensures var lines := Text.SplitLines(InitializerDecl(isPublic));
      && |lines| == 1 + |InitializerBody|
      && ReadsAsPublic(lines[0]) == isPublic
      && DropAccessModifier(lines[0]) == InitializerHead
      && ',' !in DropAccessModifier(lines[0])
      && DeclaresInitializer(lines[0])
      && InitializerLabel(lines[0]) == ParameterLabel
      && lines[1..] == InitializerBody
  {
    var access := AccessModifier(isPublic);
    TemplateLinesUnbroken(access);
    Text.SplitJoinLines(InitializerLines(access));
    HeadReadBack(isPublic);
  }

  /** The initializer's first line reads back with its access, as an
      initializer labelled `container`, and is the head template behind the
      access modifier. */
  lemma HeadReadBack(isPublic: bool)
    ensures var line := AccessModifier(isPublic) + InitializerHead;
      && ReadsAsPublic(line) == isPublic
      && DropAccessModifier(line) == InitializerHead
      && DeclaresInitializer(line)
      && InitializerLabel(line) == ParameterLabel
  {
    assert ':' !in ParameterLabel;
    var access := AccessModifier(isPublic);
    InitializerRoundTrip(isPublic, ParameterLabel, InitializerHeadRest);
    InitializerIsNotPublic(ParameterLabel + ":" + InitializerHeadRest);
    AccessModifierRoundTrip(isPublic, InitializerHead);
  }

  /** No line of either template contains a line break, and the
      initializer's head has no comma, so every template line is one line of
      the generated text. The facts are gathered from one small lemma per
      literal piece below: asked of a whole template at once, the solver has
      to unfold every character of the long literals together, which is far
      slower. */
  lemma TemplateLinesUnbroken(access: string)
    requires '\n' !in access
    ensures forall line | line in StoredPropertiesLines(access) :: '\n' !in line
    ensures forall line | line in InitializerLines(access) :: '\n' !in line
    ensures ',' !in InitializerHead
  {
    PropertiesUnbroken();
    HeadUnbroken();
    ContextLineUnbroken();
    NewContextLineUnbroken();
    AssignmentLinesUnbroken();
  }

  lemma PropertiesUnbroken()
    ensures '\n' !in ExecutorType
    ensures '\n' !in ExecutorProperty && '\n' !in ContainerProperty
  {
    ContainerTypeSingleLine();
  }

  lemma HeadUnbroken()
    ensures '\n' !in InitializerHead && ',' !in InitializerHead
  {
    ContainerTypeSingleLine();
    assert ',' !in ContainerType;
  }

  lemma ContextLineUnbroken()
    ensures '\n' !in InitializerBody[0]
  {
    assert '\n' !in ContextType;
  }

  lemma NewContextLineUnbroken()
    ensures '\n' !in InitializerBody[1]
  {
  }

  lemma AssignmentLinesUnbroken()
    ensures '\n' !in InitializerBody[2] && '\n' !in InitializerBody[3] && '\n' !in InitializerBody[4]
  {
    assert '\n' !in ExecutorType;
  }

  /** With `disableGenerateInit: true` (as the test actor `DataHandler` is
      declared) only the stored properties are generated, so the actor must
      declare its own initializer. */
  lemma DisabledInitializerOmitted(modifiers: seq<string>)
    ensures var members := MemberExpansion(Attribute(Some([DisableGenerateInit("true")])), modifiers);
      && members == [StoredPropertiesDecl(IsPublic(modifiers))]
      && forall d | d in members :: !DeclaresInitializer(d)
  {
    DisableGenerateInitLiterals();
  }
}
