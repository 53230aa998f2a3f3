/**
 * Building the kinds' configurations in the `SimpleDb` constructor
 * (src/index.ts:666-699).
 *
 * A definition is the list of `Object.entries(definition)`: each kind with
 * the list of `Object.entries(def)` of its fields. A field's declared type is
 * a value: a tag string such as "string?" or "required", an array of
 * choices, a nested shape object or a one-element array holding one.
 */
module Schema {
  import opened Wrappers
  import opened Values
  import opened Store

  datatype FieldDecl = FieldDecl(name: string, typ: Value)

  datatype KindDef = KindDef(kind: string, fields: seq<FieldDecl>)

  type Definition = seq<KindDef>

  /** The three errors the constructor throws. */
  datatype SchemaError =
    | IllegalKindName(kind: string)
    | RequiredOnNonCommon(field: string)
    | ForbiddenKey(field: string, kind: string)

  /** `commonConfig`: the fields every kind has. */
  const CommonConfig: Config := map["schema" := Str("string?"), "table" := Str("string?"), "name" := Str("string")]

  /** The type tag that borrows the common field's type. */
  const RequiredTag: Value := Str("required")

  /** Kind names the constructor refuses. */
  predicate Reserved(kind: string)
  {
    kind == "entities" || kind == "_"
  }

  /** A field declaration the constructor refuses. */
  predicate BadField(f: FieldDecl)
  {
    if f.typ == RequiredTag then f.name !in CommonConfig else f.name in CommonConfig
  }

  /** The error a refused field declaration throws. */
  function FieldErrorOf(kind: string, f: FieldDecl): SchemaError
  {
    if f.typ == RequiredTag then RequiredOnNonCommon(f.name) else ForbiddenKey(f.name, kind)
  }

  /** The type stored for a declaration: "required" becomes the common type. */
  function Resolve(f: FieldDecl): Value
  {
    if f.typ == RequiredTag && f.name in CommonConfig then CommonConfig[f.name] else f.typ
  }

  /** The first refused field declaration of a kind, in declaration order. */
  function FieldsError(kind: string, fields: seq<FieldDecl>): Option<SchemaError>
  {
    if fields == [] then None
    else
      var init, last := fields[..|fields| - 1], fields[|fields| - 1];
      match FieldsError(kind, init)
      case Some(e) => Some(e)
      case None => if BadField(last) then Some(FieldErrorOf(kind, last)) else None
  }

  /** The error one kind throws: its name first, then its fields. */
  function KindError(k: KindDef): Option<SchemaError>
  {
    if Reserved(k.kind) then Some(IllegalKindName(k.kind)) else FieldsError(k.kind, k.fields)
  }

  /** The first error of the definition, in entry order. */
  function DefinitionError(def: Definition): Option<SchemaError>
  {
    if def == [] then None
    else
      var init, last := def[..|def| - 1], def[|def| - 1];
      match DefinitionError(init)
      case Some(e) => Some(e)
      case None => KindError(last)
  }

  /** `cloneDef`: each declared field at its resolved type; a later declaration wins. */
  function Overlay(fields: seq<FieldDecl>): Config
  {
    if fields == [] then map[]
    else
      var init, last := fields[..|fields| - 1], fields[|fields| - 1];
      Overlay(init)[last.name := Resolve(last)]
  }

  /** `{...commonConfig, ...cloneDef}`. */
  function KindConfig(fields: seq<FieldDecl>): Config
  {
    CommonConfig + Overlay(fields)
  }

  /** `Object.fromEntries`: each kind at its configuration; a later entry wins. */
  function Configs(def: Definition): map<string, Config>
  {
    if def == [] then map[]
    else
      var init, last := def[..|def| - 1], def[|def| - 1];
      Configs(init)[last.kind := KindConfig(last.fields)]
  }

  /** The constructor's outcome: the first error, or every kind's configuration. */
  function BuildConfigs(def: Definition): Result<map<string, Config>, SchemaError>
  {
    match DefinitionError(def)
    case Some(e) => Failure(e)
    case None => Success(Configs(def))
  }

  // ---------------------------------------------------------------------
  // The constructor's loops
  // ---------------------------------------------------------------------

  /** Once an error is found in a prefix, the rest of the fields do not change it. */
  lemma {:induction false} FieldsErrorSticks(kind: string, fields: seq<FieldDecl>, j: nat)
    requires j <= |fields| && FieldsError(kind, fields[..j]).Some?
    ensures FieldsError(kind, fields) == FieldsError(kind, fields[..j])
  {
    if j < |fields| {
      var n := |fields| - 1;
      assert fields[..n][..j] == fields[..j];
      FieldsErrorSticks(kind, fields[..n], j);
    } else {
      assert fields[..j] == fields;
    }
  }

  /** Once an error is found in a prefix, the later kinds do not change it. */
  lemma {:induction false} DefinitionErrorSticks(def: Definition, i: nat)
    requires i <= |def| && DefinitionError(def[..i]).Some?
    ensures DefinitionError(def) == DefinitionError(def[..i])
  {
    if i < |def| {
      var n := |def| - 1;
      assert def[..n][..i] == def[..i];
      DefinitionErrorSticks(def[..n], i);
    } else {
      assert def[..i] == def;
    }
  }

  /**
   * The inner `forEach` over one kind's fields: the first refused
   * declaration throws; otherwise `cloneDef` holds every resolved type.
   */
  method CloneFields(kind: string, fields: seq<FieldDecl>) returns (r: Result<Config, SchemaError>)
    ensures FieldsError(kind, fields).Some? ==> r == Failure(FieldsError(kind, fields).value)
    ensures FieldsError(kind, fields).None? ==> r == Success(Overlay(fields))
  {
    var cloneDef: Config := map[];
    for j := 0 to |fields|
      invariant FieldsError(kind, fields[..j]).None?
      invariant cloneDef == Overlay(fields[..j])
    {
      assert fields[..j + 1][..j] == fields[..j];
      var f := fields[j];
      cloneDef := cloneDef[f.name := f.typ];
      if f.typ == RequiredTag {
        if f.name !in CommonConfig {
          FieldsErrorSticks(kind, fields, j + 1);
          return Failure(RequiredOnNonCommon(f.name));
        }
        cloneDef := cloneDef[f.name := CommonConfig[f.name]];
      } else {
        if f.name in CommonConfig {
          FieldsErrorSticks(kind, fields, j + 1);
          return Failure(ForbiddenKey(f.name, kind));
        }
      }
    }
    assert fields[..|fields|] == fields;
    r := Success(cloneDef);
  }

  /**
   * The constructor's `entries.map`: every kind checked and configured in
   * entry order, and the first error thrown.
   */
  method Construct(def: Definition) returns (r: Result<map<string, Config>, SchemaError>)
    ensures r == BuildConfigs(def)
  {
    var configs: map<string, Config> := map[];
    for i := 0 to |def|
      invariant DefinitionError(def[..i]).None?
      invariant configs == Configs(def[..i])
    {
      assert def[..i + 1][..i] == def[..i];
      var k := def[i];
      if k.kind == "entities" || k.kind == "_" {
        DefinitionErrorSticks(def, i + 1);
        return Failure(IllegalKindName(k.kind));
      }
      var cloned := CloneFields(k.kind, k.fields);
      if cloned.Failure? {
        DefinitionErrorSticks(def, i + 1);
        return Failure(cloned.error);
      }
      configs := configs[k.kind := CommonConfig + cloned.value];
    }
    assert def[..|def|] == def;
    r := Success(configs);
  }

  // ---------------------------------------------------------------------
  // What the constructor promises
  // ---------------------------------------------------------------------

  /** A kind's fields pass iff none of its declarations is refused. */
  lemma {:induction false} FieldsErrorNoneIff(kind: string, fields: seq<FieldDecl>)
    ensures FieldsError(kind, fields).None? <==> forall j | 0 <= j < |fields| :: !BadField(fields[j])
  {
    if fields != [] {
      var n := |fields| - 1;
      FieldsErrorNoneIff(kind, fields[..n]);
      assert forall j | 0 <= j < n :: fields[..n][j] == fields[j];
    }
  }

  /** The error a kind's fields throw is that of its first refused declaration. */
  lemma {:induction false} FieldsErrorIsFirst(kind: string, fields: seq<FieldDecl>)
    requires FieldsError(kind, fields).Some?
    ensures exists j | 0 <= j < |fields| ::
      && BadField(fields[j])
      && FieldsError(kind, fields).value == FieldErrorOf(kind, fields[j])
      && forall j' | 0 <= j' < j :: !BadField(fields[j'])
  {
    var n := |fields| - 1;
    assert forall j | 0 <= j < n :: fields[..n][j] == fields[j];
    if FieldsError(kind, fields[..n]).Some? {
      FieldsErrorIsFirst(kind, fields[..n]);
    } else {
      FieldsErrorNoneIff(kind, fields[..n]);
      assert BadField(fields[n]);
    }
  }

  /**
   * Construction fails iff some kind is reserved or declares a refused
   * field.
   */
  lemma {:induction false} ConstructFailsIff(def: Definition)
    ensures BuildConfigs(def).Failure? <==>
      exists i | 0 <= i < |def| :: Reserved(def[i].kind) || exists j | 0 <= j < |def[i].fields| :: BadField(def[i].fields[j])
  {
    if def != [] {
      var n := |def| - 1;
      ConstructFailsIff(def[..n]);
      assert forall i | 0 <= i < n :: def[..n][i] == def[i];
      FieldsErrorNoneIff(def[n].kind, def[n].fields);
    }
  }

  /**
   * A failure reports the first offending kind: its name if reserved,
   * otherwise its first refused declaration; every kind before it is clean.
   */
  lemma {:induction false} ConstructReportsFirst(def: Definition)
    requires BuildConfigs(def).Failure?
    ensures exists i | 0 <= i < |def| ::
      && KindError(def[i]) == Some(BuildConfigs(def).error)
      && forall i' | 0 <= i' < i :: KindError(def[i']).None?
  {
    var n := |def| - 1;
    assert forall i | 0 <= i < n :: def[..n][i] == def[i];
    if DefinitionError(def[..n]).Some? {
      ConstructReportsFirst(def[..n]);
    } else {
      CleanPrefix(def[..n]);
    }
  }

  /** A definition with no error has no kind with an error. */
  lemma {:induction false} CleanPrefix(def: Definition)
    requires DefinitionError(def).None?
    ensures forall i | 0 <= i < |def| :: KindError(def[i]).None?
  {
    if def != [] {
      var n := |def| - 1;
      CleanPrefix(def[..n]);
      assert forall i | 0 <= i < n :: def[..n][i] == def[i];
    }
  }

  /** The configured kinds are exactly the kinds of the entries. */
  lemma {:induction false} ConfiguredKinds(def: Definition)
    ensures forall k :: k in Configs(def) <==> exists i | 0 <= i < |def| :: def[i].kind == k
  {
    if def != [] {
      var n := |def| - 1;
      ConfiguredKinds(def[..n]);
      assert forall i | 0 <= i < n :: def[..n][i] == def[i];
    }
  }

  /** A kind is configured by its last entry. */
  lemma {:induction false} LastEntryWins(def: Definition, i: nat)
    requires i < |def|
    requires forall i' | i < i' < |def| :: def[i'].kind != def[i].kind
    ensures def[i].kind in Configs(def)
    ensures Configs(def)[def[i].kind] == KindConfig(def[i].fields)
  {
    var n := |def| - 1;
    assert Configs(def) == Configs(def[..n])[def[n].kind := KindConfig(def[n].fields)];
    if i < n {
      assert def[..n][i] == def[i];
      LastEntryWins(def[..n], i);
    }
  }

  /** The declared fields are the fields of cloneDef. */
  lemma {:induction false} OverlayFields(fields: seq<FieldDecl>)
    ensures forall f :: f in Overlay(fields) <==> exists j | 0 <= j < |fields| :: fields[j].name == f
  {
    if fields != [] {
      var n := |fields| - 1;
      OverlayFields(fields[..n]);
      assert forall j | 0 <= j < n :: fields[..n][j] == fields[j];
    }
  }

  /** A field's type is that of its last declaration, resolved. */
  lemma {:induction false} LastDeclarationWins(fields: seq<FieldDecl>, j: nat)
    requires j < |fields|
    requires forall j' | j < j' < |fields| :: fields[j'].name != fields[j].name
    ensures fields[j].name in Overlay(fields)
    ensures Overlay(fields)[fields[j].name] == Resolve(fields[j])
  {
    var n := |fields| - 1;
    if j < n {
      assert fields[..n][j] == fields[j];
      LastDeclarationWins(fields[..n], j);
    }
  }

  /** With no refused declaration, a common field can only be "required", and resolves to its common type. */
  lemma {:induction false} CleanOverlayKeepsCommon(fields: seq<FieldDecl>)
    requires forall j | 0 <= j < |fields| :: !BadField(fields[j])
    ensures forall c | c in CommonConfig && c in Overlay(fields) :: Overlay(fields)[c] == CommonConfig[c]
  {
    if fields != [] {
      var n := |fields| - 1;
      CleanOverlayKeepsCommon(fields[..n]);
    }
  }

  /**
   * On success every configured kind has the common fields at their common
   * types, and the reserved names are never configured.
   */
  lemma ConstructKeepsCommon(def: Definition)
    requires BuildConfigs(def).Success?
    ensures forall k, c | k in BuildConfigs(def).value && c in CommonConfig ::
      c in BuildConfigs(def).value[k] && BuildConfigs(def).value[k][c] == CommonConfig[c]
    ensures "entities" !in BuildConfigs(def).value && "_" !in BuildConfigs(def).value
  {
    CleanPrefix(def);
    ConfiguredKinds(def);
    forall k, c | k in Configs(def) && c in CommonConfig
      ensures c in Configs(def)[k] && Configs(def)[k][c] == CommonConfig[c]
    {
      var i := LastIndexOfKind(def, k);
      LastEntryWins(def, i);
      FieldsErrorNoneIff(def[i].kind, def[i].fields);
      CleanOverlayKeepsCommon(def[i].fields);
    }
  }

  /** The last entry of a kind that has one. */
  lemma LastIndexOfKind(def: Definition, k: string) returns (i: nat)
    requires exists i | 0 <= i < |def| :: def[i].kind == k
    ensures i < |def| && def[i].kind == k
    ensures forall i' | i < i' < |def| :: def[i'].kind != k
  {
    var n := |def| - 1;
    if def[n].kind == k {
      i := n;
    } else {
      assert exists i | 0 <= i < n :: def[..n][i].kind == k;
      i := LastIndexOfKind(def[..n], k);
    }
  }

  /**
   * On success a configured kind holds the common fields and the fields it
   * declares, each declared field at its last declared type.
   */
  lemma ConstructedConfig(def: Definition, i: nat, j: nat)
    requires BuildConfigs(def).Success?
    requires i < |def| && forall i' | i < i' < |def| :: def[i'].kind != def[i].kind
    requires j < |def[i].fields|
    requires forall j' | j < j' < |def[i].fields| :: def[i].fields[j'].name != def[i].fields[j].name
    ensures def[i].kind in BuildConfigs(def).value
    ensures forall f :: f in BuildConfigs(def).value[def[i].kind] <==>
      f in CommonConfig || exists j' | 0 <= j' < |def[i].fields| :: def[i].fields[j'].name == f
    ensures BuildConfigs(def).value[def[i].kind][def[i].fields[j].name] == Resolve(def[i].fields[j])
  {
    LastEntryWins(def, i);
    OverlayFields(def[i].fields);
    LastDeclarationWins(def[i].fields, j);
  }

  // ---------------------------------------------------------------------
  // Examples
  // ---------------------------------------------------------------------

  /** `{ entities: {} }` is refused by its kind name. */
  lemma ReservedKindRefused()
    ensures BuildConfigs([KindDef("entities", [])]) == Failure(IllegalKindName("entities"))
  {
    assert [KindDef("entities", [])][..0] == [];
  }

  /**
   * `{ user: { name: 'string' } }` is refused for redeclaring `name`, and
   * `{ user: { age: 'required' } }` for borrowing a type `age` does not have.
   */
  lemma RefusedFields()
    ensures BuildConfigs([KindDef("user", [FieldDecl("name", Str("string"))])]) == Failure(ForbiddenKey("name", "user"))
    ensures BuildConfigs([KindDef("user", [FieldDecl("age", RequiredTag)])]) == Failure(RequiredOnNonCommon("age"))
  {
    assert [KindDef("user", [FieldDecl("name", Str("string"))])][..0] == [];
    assert [FieldDecl("name", Str("string"))][..0] == [];
    assert [KindDef("user", [FieldDecl("age", RequiredTag)])][..0] == [];
    assert [FieldDecl("age", RequiredTag)][..0] == [];
  }

  /** `{ column: { name: 'required', type: 'string' } }` keeps `name` a plain string. */
  lemma ColumnKindConfigured()
    ensures BuildConfigs([KindDef("column", [FieldDecl("name", RequiredTag), FieldDecl("type", Str("string"))])])
      == Success(map["column" := map["schema" := Str("string?"), "table" := Str("string?"), "name" := Str("string"), "type" := Str("string")]])
  {
    var fields := [FieldDecl("name", RequiredTag), FieldDecl("type", Str("string"))];
    var def := [KindDef("column", fields)];
    assert def[..0] == [];
    assert fields[..1] == [FieldDecl("name", RequiredTag)];
    assert fields[..1][..0] == [];
    assert Overlay(fields[..1]) == map["name" := Str("string")];
    assert Overlay(fields) == map["name" := Str("string"), "type" := Str("string")];
    assert !BadField(fields[0]) && !BadField(fields[1]);
    assert FieldsError("column", fields[..1]) == None;
    assert DefinitionError(def) == None;
    assert KindConfig(fields) == map["schema" := Str("string?"), "table" := Str("string?"), "name" := Str("string"), "type" := Str("string")];
    assert Configs(def) == map["column" := KindConfig(fields)];
  }
}
