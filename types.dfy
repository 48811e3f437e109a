/**
 * The vocabulary of the type-equation pass: primitive and concrete types, the
 * right-hand sides of equations, and the diagnostic tags attached to them.
 * Type-graph nodes are plain naturals; node 0 is the default (`NodeIndex::default()`),
 * which the checker's result register holds when no expression type is current.
 */
module Types {

  /** The built-in primitives; `Unary` is the unit type `()`. */
  datatype Primitive = Unary | Bool | Int

  datatype ConcreteType =
    | Primitive(primitive: Primitive)
    | Function(params: map<string, ConcreteType>, returnType: ConcreteType)

  /** The right-hand side of an equation: a known type, another node, or a function shape. */
  datatype InferredType =
    | Known(concrete: ConcreteType)
    | Variable(node: nat)
    | Fn(params: map<string, InferredType>, returnType: InferredType)

  /** `lhs = rhs` */
  datatype TypeEquation = TypeEquation(lhs: nat, rhs: InferredType)

  /** Why an equation was added; used only to explain a failed solve. */
  datatype InferenceSource =
    | FunctionSignature
    | FnParameter
    | ImplicitReturn
    | IfConditionalBool
    | IfBranchesSame
    | ExplicitReturn
    | NumericOperator
    | EqualityOperator
    | BooleanOperator
    | AssignmentSource
    | ExplicitDecl
    | DeclarationSource
    | LiteralValue
    | CallArgument
    | CallReturnType

  /** A source recorded against a node. */
  datatype SourceEntry = SourceEntry(node: nat, source: InferenceSource)

  const DefaultNode: nat := 0
}
