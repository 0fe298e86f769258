/** The translator's model of Haxe types (the `HaxeTypeKind` enum and the `HaxeType`
    family of interfaces). */
module HaxeTypes {
  import opened JsObjects

  datatype Kind = DYNAMIC | FUNCTION | ANONYMOUS | CLASS | NORMAL

  /** A resolved type expression.  `Named` is the plain `HaxeType` record (`path`,
      `name`, `kind`, `isArray`); `Function` is `HaxeFunction`, whose `path` and `name`
      are null and whose kind is `FUNCTION`. */
  datatype HaxeType =
    | Named(kind: Kind, path: Option<string>, name: Option<string>, isArray: bool)
    | Function(args: seq<Argument>, returnType: HaxeType)

  datatype Argument = Argument(name: string, ty: HaxeType, optional: bool)

  /** A method's `type` is whatever the resolver made of its `f` child. */
  datatype Method = Method(name: string, isPublic: bool, ty: HaxeType)

  datatype Field = Field(name: string, ty: HaxeType, isPublic: bool)

  /** `HaxeClass`: its kind is always `CLASS`. */
  datatype HaxeClass = HaxeClass(
    path: string,
    name: string,
    parent: Option<string>,
    methods: seq<Method>,
    fields: seq<Field>,
    staticMethods: seq<Method>,
    staticFields: seq<Field>)

  /** The `kind` field of a resolved type. */
  function KindOf(t: HaxeType): Kind {
    match t
    case Named(kind, _, _, _) => kind
    case Function(_, _) => FUNCTION
  }
}
