/** `@NSMainModelActor`: the extension macro makes the attached type conform
    to `CoreDataEvolution.NSMainModelActor`; the member macro adds a single
    `modelContainer` stored property (no executor: the type runs on the main
    actor) and, unless disabled, an initializer that stores the container it
    is given. Generated declarations are plain text. */
module MainModelActorMacro {
  import Text
  import opened MacroHelper
  import opened Declarations

  const ProtocolName: string := EvolutionModule + "NSMainModelActor"

  /** The extension expansion. `parsesAsExtension` stands for SwiftSyntax's
      check that the generated text is an extension declaration; when it
      fails nothing is generated. Otherwise exactly one extension is produced,
      declaring that the trimmed type conforms to `NSMainModelActor`. */
  function ExtensionExpansion(typeSyntax: string, parsesAsExtension: string -> bool): (extensions: seq<string>)
    ensures |extensions| <= 1
    ensures extensions != [] <==> parsesAsExtension(ExtensionDecl(TrimmedType(typeSyntax), ProtocolName))
    ensures extensions != [] ==> extensions[0] == ExtensionDecl(TrimmedType(typeSyntax), ProtocolName)
    ensures extensions != [] ==>
      && ExtensionKeyword <= extensions[0]
      && Text.EndsWith(extensions[0], ": " + ProtocolName + " {}")
      && (':' !in TrimmedType(typeSyntax) ==> ExtendedType(extensions[0]) == TrimmedType(typeSyntax))
  {
    var decl := ExtensionDecl(TrimmedType(typeSyntax), ProtocolName);
    if parsesAsExtension(decl) then [decl] else []
  }

  const ContainerProperty: string := "let modelContainer: " + ContainerType

  /** The stored property, generated public or not: one line that reads back
      with that access and is, behind it, a single plain `let` of
      `modelContainer` (no `nonisolated` qualifier). It is not an
      initializer and declares no `modelExecutor`. */
  function StoredPropertyDecl(isPublic: bool): (decl: string)
    ensures ReadsAsPublic(decl) == isPublic
    ensures DropAccessModifier(decl) == ContainerProperty
    ensures !DeclaresInitializer(decl)
    ensures '\n' !in decl
    ensures !Text.Contains(decl, "modelExecutor")
  {
    var access := AccessModifier(isPublic);
    assert ContainerProperty[0] == 'l';
    AccessModifierRoundTrip(isPublic, ContainerProperty);
    PropertyCharacters();
    // `modelExecutor` has a capital `E` and the property's text has none.
    Text.MissingCharacterNotContained(access + ContainerProperty, "modelExecutor", 'E');
    access + ContainerProperty
  }

  const ParameterLabel: string := "modelContainer"
  /** What follows `init(modelContainer:` on the initializer's first line. */
  const InitializerHeadRest: string := " " + ContainerType + ") {"
  /** The initializer's first line, behind the access modifier. */
  const InitializerHead: string := InitializerKeyword + ParameterLabel + ":" + InitializerHeadRest

  /** The initializer's body and closing brace: it stores its argument. */
  const InitializerBody: seq<string> := [
    "    self.modelContainer = " + ParameterLabel,
    "}" ]

  function InitializerLines(access: string): seq<string> {
    [access + InitializerHead] + InitializerBody
  }

  /** The initializer, generated public or not: it reads back as an
      initializer with that access whose first parameter is labelled
      `modelContainer`. */
  function InitializerDecl(isPublic: bool): (decl: string)
    ensures ReadsAsPublic(decl) == isPublic
    ensures DeclaresInitializer(decl)
    ensures InitializerLabel(decl) == ParameterLabel
  {
    InitializerTextReadBack(isPublic);
    Text.JoinLines(InitializerLines(AccessModifier(isPublic)))
  }

  /** The proof of the contract above; in the function's body it costs the
      solver several times as much. */
  lemma InitializerTextReadBack(isPublic: bool)
    ensures var decl := Text.JoinLines(InitializerLines(AccessModifier(isPublic)));
      && ReadsAsPublic(decl) == isPublic
      && DeclaresInitializer(decl)
      && InitializerLabel(decl) == ParameterLabel
  {
    assert ':' !in ParameterLabel;
    InitializerLinesReadBack(isPublic, ParameterLabel, InitializerHeadRest, InitializerBody);
  }

  /** The member expansion: the stored property, then the initializer when
      one is to be generated. Every declaration carries `public ` exactly when
      the attached declaration is public; an initializer is present exactly
      when `ShouldGenerateInitializer` holds, and its parameter is labelled
      `modelContainer`. */
  function MemberExpansion(node: Attribute, modifiers: seq<string>): (members: seq<string>)
    ensures |members| == (if ShouldGenerateInitializer(node) then 2 else 1)
    ensures members[0] == StoredPropertyDecl(IsPublic(modifiers))
    ensures ShouldGenerateInitializer(node) ==> members[1] == InitializerDecl(IsPublic(modifiers))
    ensures forall d | d in members :: ReadsAsPublic(d) == IsPublic(modifiers)
    ensures (exists d | d in members :: DeclaresInitializer(d)) <==> ShouldGenerateInitializer(node)
    ensures forall d | d in members && DeclaresInitializer(d) :: InitializerLabel(d) == ParameterLabel
  {
    var isPublic := IsPublic(modifiers);
    var decl := StoredPropertyDecl(isPublic);
    var initializer := if ShouldGenerateInitializer(node) then Some(InitializerDecl(isPublic)) else None;
    AssembleReadBack(decl, initializer, isPublic, ParameterLabel);
    Assemble(decl, initializer)
  }

  /** Split into lines, the initializer's first line is, behind the access
      modifier, exactly `init(modelContainer: CoreData.NSPersistentContainer) {`:
      one parameter (the line has no comma), labelled `modelContainer`. Its
      body assigns `self.modelContainer` from that parameter. */
  lemma InitializerAssignsContainer(isPublic: bool)
    ensures var lines := Text.SplitLines(InitializerDecl(isPublic));
      && |lines| == 3
      && ReadsAsPublic(lines[0]) == isPublic
      && DropAccessModifier(lines[0]) == InitializerHead
      && ',' !in DropAccessModifier(lines[0])
      && DeclaresInitializer(lines[0])
      && InitializerLabel(lines[0]) == ParameterLabel
      && lines[1] == "    self.modelContainer = " + ParameterLabel
      && lines[2] == "}"
  {
    var access := AccessModifier(isPublic);
    InitializerCharacters(access);
    Text.SplitJoinLines(InitializerLines(access));
    HeadReadBack(isPublic);
  }

  /** The initializer's first line reads back with its access, as an
      initializer labelled `modelContainer`, and is the head template behind
      the access modifier. */
  lemma HeadReadBack(isPublic: bool)
    ensures var line := AccessModifier(isPublic) + InitializerHead;
      && ReadsAsPublic(line) == isPublic
      && DropAccessModifier(line) == InitializerHead
      && DeclaresInitializer(line)
      && InitializerLabel(line) == ParameterLabel
  {
    assert ':' !in ParameterLabel;
    var access := AccessModifier(isPublic);
    InitializerRoundTrip(isPublic, ParameterLabel, InitializerHeadRest);
    InitializerIsNotPublic(ParameterLabel + ":" + InitializerHeadRest);
    AccessModifierRoundTrip(isPublic, InitializerHead);
  }

  /** The property template has no line break and no capital `E`. Literal
      facts are proved on the short pieces: asked of a whole template at
      once, the solver has to unfold every character of the long literals
      together, which is far slower. */
  lemma PropertyCharacters()
    ensures '\n' !in ContainerProperty && 'E' !in ContainerProperty
    ensures forall access | access == AccessModifier(true) || access == AccessModifier(false) ::
      '\n' !in access + ContainerProperty && 'E' !in access + ContainerProperty
  {
    ContainerTypeSingleLine();
    assert 'E' !in ContainerType;
  }

  /** No line of the initializer template breaks, and its head has no comma. */
  lemma InitializerCharacters(access: string)
    requires '\n' !in access
    ensures forall line | line in InitializerLines(access) :: '\n' !in line
    ensures ',' !in InitializerHead
  {
    ContainerTypeSingleLine();
    assert ',' !in ContainerType;
    assert '\n' !in InitializerBody[0];
  }

  /** With `disableGenerateInit: true` only the stored property is generated. */
  lemma DisabledInitializerOmitted(modifiers: seq<string>)
    ensures var members := MemberExpansion(Attribute(Some([DisableGenerateInit("true")])), modifiers);
      && members == [StoredPropertyDecl(IsPublic(modifiers))]
      && forall d | d in members :: !DeclaresInitializer(d)
  {
    DisableGenerateInitLiterals();
  }
}
