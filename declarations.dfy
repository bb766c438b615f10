/** Pieces shared by the templates of both macros, and read-back views of a
    generated declaration's text (its access modifier, whether it is an
    initializer and its parameter label, the type an extension extends),
    used to state what the expansions produce. */
module Declarations {
  import Text
  import opened MacroHelper

  const PublicModifier: string := "public "
  const ExtensionKeyword: string := "extension "
  const InitializerKeyword: string := "init("
  const CoreDataModule: string := "CoreData."
  const EvolutionModule: string := "CoreDataEvolution."
  const ContainerType: string := CoreDataModule + "NSPersistentContainer"

  /** Characters treated as trivia around a type's text. */
  const Whitespace: set<char> := {' ', '\t', '\n', '\r'}

  /** The container type's text has no line break. */
  lemma ContainerTypeSingleLine()
    ensures '\n' !in ContainerType
  {
  }

  /** The prefix each macro puts in front of its generated declarations:
      `"public "` for a public declaration, nothing otherwise. It reads as
      public exactly when the declaration is, and has no line break. */
  function AccessModifier(isPublic: bool): (access: string)
    ensures ReadsAsPublic(access) == isPublic
    ensures '\n' !in access
  {
    if isPublic then PublicModifier else ""
  }

  /** The declaration text begins with the `public` modifier. */
  predicate ReadsAsPublic(decl: string) {
    PublicModifier <= decl
  }

  function DropAccessModifier(decl: string): string {
    if ReadsAsPublic(decl) then decl[|PublicModifier|..] else decl
  }

  /** Reading the access modifier back from a prefixed declaration gives the
      access it was generated with, and dropping it gives the template back. */
  lemma AccessModifierRoundTrip(isPublic: bool, body: string)
    requires !ReadsAsPublic(body)
    ensures ReadsAsPublic(AccessModifier(isPublic) + body) == isPublic
    ensures DropAccessModifier(AccessModifier(isPublic) + body) == body
  {
    if isPublic {
      assert (PublicModifier + body)[|PublicModifier|..] == body;
    } else {
      assert "" + body == body;
    }
  }

  /** The declaration is an initializer. */
  predicate DeclaresInitializer(decl: string) {
    InitializerKeyword <= DropAccessModifier(decl)
  }

  /** The label of an initializer's first parameter. */
  function InitializerLabel(decl: string): string
    requires DeclaresInitializer(decl)
  {
    Text.TakeUntil(DropAccessModifier(decl)[|InitializerKeyword|..], ':')
  }

  /** An initializer template read back: it is an initializer, with the
      given access and first parameter label. */
  lemma InitializerRoundTrip(isPublic: bool, parameterLabel: string, rest: string)
    requires ':' !in parameterLabel
    ensures var decl := AccessModifier(isPublic) + (InitializerKeyword + parameterLabel + ":" + rest);
      && ReadsAsPublic(decl) == isPublic
      && DeclaresInitializer(decl)
      && InitializerLabel(decl) == parameterLabel
  {
    var afterKeyword := parameterLabel + [':'] + rest;
    var body := InitializerKeyword + afterKeyword;
    assert InitializerKeyword + parameterLabel + ":" + rest == body;
    InitializerIsNotPublic(afterKeyword);
    AccessModifierRoundTrip(isPublic, body);
    assert body[|InitializerKeyword|..] == afterKeyword;
    Text.TakeUntilStopsAtDelimiter(parameterLabel, ':', rest);
  }

  /** An initializer template written as lines, the first of them the head
      `init(<label>:<headRest>` behind the access modifier, reads back once
      joined: it is an initializer, with the given access and label. */
  lemma InitializerLinesReadBack(isPublic: bool, parameterLabel: string, headRest: string, body: seq<string>)
    requires ':' !in parameterLabel
    ensures var decl := Text.JoinLines([AccessModifier(isPublic) + (InitializerKeyword + parameterLabel + ":" + headRest)] + body);
      && ReadsAsPublic(decl) == isPublic
      && DeclaresInitializer(decl)
      && InitializerLabel(decl) == parameterLabel
  {
    var access := AccessModifier(isPublic);
    var head := InitializerKeyword + parameterLabel + ":" + headRest;
    if body == [] {
      assert [access + head] + body == [access + head];
      InitializerRoundTrip(isPublic, parameterLabel, headRest);
    } else {
      var tail := Text.JoinLines(body);
      Text.JoinLinesCons(access + head, body);
      HeadBeforeRest(access, parameterLabel, headRest, tail);
      InitializerRoundTrip(isPublic, parameterLabel, headRest + "\n" + tail);
    }
  }

  /** The head line followed by further lines is an initializer text whose
      part after the label's colon runs on past the head. */
  lemma HeadBeforeRest(access: string, parameterLabel: string, headRest: string, tail: string)
    ensures access + (InitializerKeyword + parameterLabel + ":" + headRest) + "\n" + tail
      == access + (InitializerKeyword + parameterLabel + ":" + (headRest + "\n" + tail))
  {
  }

  lemma InitializerIsNotPublic(rest: string)
    ensures !ReadsAsPublic(InitializerKeyword + rest)
  {
    assert (InitializerKeyword + rest)[0] == 'i';
  }

  /** `type.trimmed`: the type's text without surrounding whitespace. Only
      whitespace is removed, and only from the ends. */
  function TrimmedType(typeSyntax: string): (typeName: string)
    ensures |typeName| <= |typeSyntax|
    ensures Text.TrimmedFrom(typeSyntax, typeName, Whitespace)
    ensures typeName != [] ==> typeName[0] !in Whitespace && typeName[|typeName| - 1] !in Whitespace
  {
    Text.Trim(typeSyntax, Whitespace)
  }

  /** The text `extension <type>: <protocol> {}`. It begins with
      `extension `, ends with the conformance clause, and reads back the
      extended type (when that type's text has no colon). */
  function ExtensionDecl(typeName: string, protocolName: string): (decl: string)
    ensures ExtensionKeyword <= decl
    ensures Text.EndsWith(decl, ": " + protocolName + " {}")
    ensures |decl| == |ExtensionKeyword| + |typeName| + |": " + protocolName + " {}"|
    ensures ':' !in typeName ==> ExtendedType(decl) == typeName
  {
    var tail := ": " + protocolName + " {}";
    var decl := ExtensionKeyword + typeName + tail;
    assert decl == ExtensionKeyword + (typeName + tail);
    assert decl[|decl| - |tail|..] == tail;
    assert decl[|ExtensionKeyword|..] == typeName + [':'] + (" " + protocolName + " {}");
    if ':' !in typeName then
      Text.TakeUntilStopsAtDelimiter(typeName, ':', " " + protocolName + " {}");
      decl
    else decl
  }

  /** The facts `ExtensionDecl` states fix its text: any text that begins
      with `extension `, ends with the conformance clause, has their length
      plus the type's, and reads back the type is that extension. */
  lemma ExtensionDeclDetermined(decl: string, typeName: string, protocolName: string)
    requires ExtensionKeyword <= decl
    requires Text.EndsWith(decl, ": " + protocolName + " {}")
    requires |decl| == |ExtensionKeyword| + |typeName| + |": " + protocolName + " {}"|
    requires ':' !in typeName && ExtendedType(decl) == typeName
    ensures decl == ExtensionDecl(typeName, protocolName)
  {
    var tail := ": " + protocolName + " {}";
    var start := |ExtensionKeyword|;
    assert decl[start..][..|typeName|] == typeName;
    assert decl[start..start + |typeName|] == typeName;
    calc {
      decl;
      decl[..start] + decl[start..start + |typeName|] + decl[start + |typeName|..];
      ExtensionKeyword + typeName + tail;
    }
  }

  /** The type an extension declaration extends. */
  function ExtendedType(decl: string): string
    requires ExtensionKeyword <= decl
  {
    Text.TakeUntil(decl[|ExtensionKeyword|..], ':')
  }

  /** A member expansion's result: the stored-property declaration, then
      the initializer when there is one. */
  function Assemble(stored: string, initializer: Option<string>): (members: seq<string>)
    ensures |members| == (if initializer.Some? then 2 else 1)
    ensures members[0] == stored
    ensures initializer.Some? ==> members[1] == initializer.value
  {
    [stored] + (match initializer case Some(i) => [i] case None => [])
  }

  lemma AssembleReadBack(stored: string, initializer: Option<string>, isPublic: bool, parameterLabel: string)
    requires ReadsAsPublic(stored) == isPublic && !DeclaresInitializer(stored)
    requires initializer.Some? ==> var i := initializer.value;
      ReadsAsPublic(i) == isPublic && DeclaresInitializer(i) && InitializerLabel(i) == parameterLabel
    ensures var members := Assemble(stored, initializer);
      && (forall d | d in members :: ReadsAsPublic(d) == isPublic)
      && ((exists d | d in members :: DeclaresInitializer(d)) <==> initializer.Some?)
      && (forall d | d in members && DeclaresInitializer(d) :: InitializerLabel(d) == parameterLabel)
  {
  }
}
