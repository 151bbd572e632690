/** The internal node-type tags of the graph (the `ASTNodeType` enumeration).
  * Only the tags the modelled code inspects by name are spelled out; every other
  * tag of the catalog is `OtherType` with its name. */
module NodeTypes {

  datatype NodeType =
    | Unknown
    | Collection
    | String
    | CompilationUnit
    | ClassDeclaration
    | InterfaceDeclaration
    | AnnotationDeclaration
    | EnumDeclaration
    | ConstructorDeclaration
    | MethodDeclaration
    | FieldDeclaration
    | ConstantDeclaration
    | LocalVariableDeclaration
    | VariableDeclaration
    | LambdaExpression
    | MethodInvocation
    | MemberReference
    | OtherType(name: string)

  /** Types whose graph nodes are leaves or string bags rather than mirrors of parser nodes. */
  predicate IsSyntheticType(t: NodeType) {
    t == Collection || t == String
  }
}
