/**
 * Structural equality of Triangle record types and of formal parameters, as
 * the contextual analyzer uses it to compare types and parameter lists.
 *
 * Type denoters (`Ty`) and formal parameter sequences (`Fps`) are left
 * abstract; their own `equals`, and that of single-field record types, are
 * supplied as the `Equalities` parameter.
 */
module AbstractSyntaxTrees {

  datatype Identifier = Identifier(spelling: string)

  /** The field list of a record type: one field, or a first field and the rest. */
  datatype FieldTypeDenoter<Ty> =
    | SingleField(I: Identifier, T: Ty)
    | MultipleField(I: Identifier, T: Ty, FT: FieldTypeDenoter<Ty>)

  datatype FormalParameter<Ty, Fps> =
    | ConstParam(I: Identifier, T: Ty)
    | VarParam(I: Identifier, T: Ty)
    | ProcParam(I: Identifier, FPS: Fps)
    | FuncParam(I: Identifier, FPS: Fps, T: Ty)

  /** The argument of `equals`: null, one of the nodes above, or any other object. */
  datatype Object<Ty, Fps> =
    | Null
    | Field(f: FieldTypeDenoter<Ty>)
    | Param(p: FormalParameter<Ty, Fps>)
    | Other

  /** The equalities this model does not define: TypeDenoter.equals,
      SingleFieldTypeDenoter.equals (receiver's name and type, then the
      argument) and FormalParameterSequence.equals. */
  datatype Equalities<!Ty, !Fps> = Equalities(
    typeEq: (Ty, Ty) -> bool,
    singleEq: (Identifier, Ty, Object<Ty, Fps>) -> bool,
    fpsEq: (Fps, Fps) -> bool)

  /** The receiver's `equals`, dispatched on its class. A multiple-field
      list equals another multiple-field list with the same first name, an
      equal first type and an equal rest. */
  function FieldEquals<Ty, Fps>(eq: Equalities<Ty, Fps>, f: FieldTypeDenoter<Ty>, obj: Object<Ty, Fps>): (r: bool)
    ensures f.MultipleField? && r ==> obj.Field? && obj.f.MultipleField?
    ensures f.MultipleField? && r ==> f.I.spelling == obj.f.I.spelling && eq.typeEq(f.T, obj.f.T)
    decreases f
  {
    match f
    case SingleField(i, t) => eq.singleEq(i, t, obj)
    case MultipleField(i, t, ft) =>
      if obj.Field? && obj.f.MultipleField? then
        var other := obj.f;
        i.spelling == other.I.spelling && eq.typeEq(t, other.T) && FieldEquals(eq, ft, Field(other.FT))
      else
        false
  }

  /** FuncFormalParameter.equals: same parameter sequence and same result type. */
  function FuncParamEquals<Ty, Fps>(eq: Equalities<Ty, Fps>, p: FormalParameter<Ty, Fps>, obj: Object<Ty, Fps>): (r: bool)
    requires p.FuncParam?
    ensures r ==> obj.Param? && obj.p.FuncParam?
  {
    match obj
    case Param(FuncParam(_, fps, t)) => eq.fpsEq(p.FPS, fps) && eq.typeEq(p.T, t)
    case _ => false
  }

  /** ProcFormalParameter.equals: same parameter sequence. */
  function ProcParamEquals<Ty, Fps>(eq: Equalities<Ty, Fps>, p: FormalParameter<Ty, Fps>, obj: Object<Ty, Fps>): (r: bool)
    requires p.ProcParam?
    ensures r ==> obj.Param? && obj.p.ProcParam?
  {
    match obj
    case Param(ProcParam(_, fps)) => eq.fpsEq(p.FPS, fps)
    case _ => false
  }

  // ----- properties of the component equalities -----

  ghost predicate TypeEqReflexive<Ty(!new), Fps(!new)>(eq: Equalities<Ty, Fps>)
  {
    forall t :: eq.typeEq(t, t)
  }

  ghost predicate TypeEqSymmetric<Ty(!new), Fps(!new)>(eq: Equalities<Ty, Fps>)
  {
    forall t, u :: eq.typeEq(t, u) == eq.typeEq(u, t)
  }

  ghost predicate FpsEqReflexive<Ty(!new), Fps(!new)>(eq: Equalities<Ty, Fps>)
  {
    forall s :: eq.fpsEq(s, s)
  }

  ghost predicate FpsEqSymmetric<Ty(!new), Fps(!new)>(eq: Equalities<Ty, Fps>)
  {
    forall s, v :: eq.fpsEq(s, v) == eq.fpsEq(v, s)
  }

  /** A single-field list equals only single-field lists. */
  ghost predicate SingleEqOnlySingle<Ty(!new), Fps(!new)>(eq: Equalities<Ty, Fps>)
  {
    forall i, t, o :: eq.singleEq(i, t, o) ==> o.Field? && o.f.SingleField?
  }

  ghost predicate SingleEqReflexive<Ty(!new), Fps(!new)>(eq: Equalities<Ty, Fps>)
  {
    forall i, t :: eq.singleEq(i, t, Field(SingleField(i, t)))
  }

  ghost predicate SingleEqSymmetric<Ty(!new), Fps(!new)>(eq: Equalities<Ty, Fps>)
  {
    forall i, t, j, u :: eq.singleEq(i, t, Field(SingleField(j, u))) == eq.singleEq(j, u, Field(SingleField(i, t)))
  }

  // ----- record field lists -----

  /** equals is false for null and for every object that is not a
      multiple-field list. */
  lemma MultipleFieldRejectsOthers<Ty, Fps>(eq: Equalities<Ty, Fps>, i: Identifier, t: Ty, ft: FieldTypeDenoter<Ty>,
                                             obj: Object<Ty, Fps>)
    requires !(obj.Field? && obj.f.MultipleField?)
    ensures !FieldEquals(eq, MultipleField(i, t, ft), obj)
  {
  }

  /** Each of the three components takes part: a difference in any one of them
      makes the lists unequal. */
  lemma EveryComponentMatters<Ty, Fps>(eq: Equalities<Ty, Fps>, f: FieldTypeDenoter<Ty>, g: FieldTypeDenoter<Ty>)
    requires f.MultipleField? && g.MultipleField?
    requires f.I.spelling != g.I.spelling || !eq.typeEq(f.T, g.T) || !FieldEquals(eq, f.FT, Field(g.FT))
    ensures !FieldEquals(eq, f, Field(g))
  {
  }

  /** Against a multiple-field list, equality is exactly the three tests:
      same first name, equal first type, equal rest. */
  lemma FieldEqualsIff<Ty, Fps>(eq: Equalities<Ty, Fps>, i: Identifier, t: Ty, ft: FieldTypeDenoter<Ty>, g: FieldTypeDenoter<Ty>)
    requires g.MultipleField?
    ensures FieldEquals(eq, MultipleField(i, t, ft), Field(g))
            <==> i.spelling == g.I.spelling && eq.typeEq(t, g.T) && FieldEquals(eq, ft, Field(g.FT))
  {
  }

  /** Field order matters: swapping two fields with different names gives an
      unequal record type, whatever the component equalities. */
  lemma FieldOrderMatters<Ty, Fps>(eq: Equalities<Ty, Fps>, a: Identifier, b: Identifier, t: Ty, u: Ty)
    requires a.spelling != b.spelling
    ensures !FieldEquals(eq, MultipleField(a, t, SingleField(b, u)), Field(MultipleField(b, u, SingleField(a, t))))
  {
  }

  lemma {:induction false} FieldEqualsReflexive<Ty(!new), Fps(!new)>(eq: Equalities<Ty, Fps>, f: FieldTypeDenoter<Ty>)
    requires TypeEqReflexive(eq) && SingleEqReflexive(eq)
    ensures FieldEquals(eq, f, Field(f))
    decreases f
  {
    if f.MultipleField? {
      FieldEqualsReflexive(eq, f.FT);
    }
  }

  lemma {:induction false} FieldEqualsSymmetric<Ty(!new), Fps(!new)>(eq: Equalities<Ty, Fps>, f: FieldTypeDenoter<Ty>, g: FieldTypeDenoter<Ty>)
    requires TypeEqSymmetric(eq) && SingleEqSymmetric(eq) && SingleEqOnlySingle(eq)
    ensures FieldEquals(eq, f, Field(g)) == FieldEquals(eq, g, Field(f))
    decreases f
  {
    if f.MultipleField? && g.MultipleField? {
      FieldEqualsSymmetric(eq, f.FT, g.FT);
    }
  }

  // ----- formal parameters -----

  /** A function parameter never equals a procedure parameter, in either order. */
  lemma FuncAndProcDiffer<Ty, Fps>(eq: Equalities<Ty, Fps>, f: FormalParameter<Ty, Fps>, p: FormalParameter<Ty, Fps>)
    requires f.FuncParam? && p.ProcParam?
    ensures !FuncParamEquals(eq, f, Param(p))
    ensures !ProcParamEquals(eq, p, Param(f))
  {
  }

  /** Two function parameters are equal exactly when their parameter sequences
      and their result types are. */
  lemma FuncParamEqualsIff<Ty, Fps>(eq: Equalities<Ty, Fps>, f: FormalParameter<Ty, Fps>, g: FormalParameter<Ty, Fps>)
    requires f.FuncParam? && g.FuncParam?
    ensures FuncParamEquals(eq, f, Param(g)) <==> eq.fpsEq(f.FPS, g.FPS) && eq.typeEq(f.T, g.T)
  {
  }

  /** The function's name takes no part, neither the receiver's nor the argument's. */
  lemma FuncNameIgnored<Ty, Fps>(eq: Equalities<Ty, Fps>, i: Identifier, j: Identifier, fps: Fps, t: Ty,
                                 obj: Object<Ty, Fps>, f: FormalParameter<Ty, Fps>)
    requires f.FuncParam?
    ensures FuncParamEquals(eq, FuncParam(i, fps, t), obj) == FuncParamEquals(eq, FuncParam(j, fps, t), obj)
    ensures FuncParamEquals(eq, f, Param(FuncParam(i, fps, t))) == FuncParamEquals(eq, f, Param(FuncParam(j, fps, t)))
  {
  }

  /** A differing result type alone makes two function parameters unequal. */
  lemma FuncResultTypeMatters<Ty, Fps>(eq: Equalities<Ty, Fps>, i: Identifier, fps: Fps, t: Ty, u: Ty)
    requires !eq.typeEq(t, u)
    ensures !FuncParamEquals(eq, FuncParam(i, fps, t), Param(FuncParam(i, fps, u)))
  {
  }

  lemma FuncParamEqualsReflexiveSymmetric<Ty(!new), Fps(!new)>(eq: Equalities<Ty, Fps>, f: FormalParameter<Ty, Fps>, g: FormalParameter<Ty, Fps>)
    requires f.FuncParam? && g.FuncParam?
    ensures TypeEqReflexive(eq) && FpsEqReflexive(eq) ==> FuncParamEquals(eq, f, Param(f))
    ensures TypeEqSymmetric(eq) && FpsEqSymmetric(eq) ==> FuncParamEquals(eq, f, Param(g)) == FuncParamEquals(eq, g, Param(f))
  {
  }

  /** Two procedure parameters are equal exactly when their parameter
      sequences are; the names take no part. */
  lemma ProcParamEqualsIff<Ty, Fps>(eq: Equalities<Ty, Fps>, p: FormalParameter<Ty, Fps>, q: FormalParameter<Ty, Fps>)
    requires p.ProcParam? && q.ProcParam?
    ensures ProcParamEquals(eq, p, Param(q)) <==> eq.fpsEq(p.FPS, q.FPS)
  {
  }

  /** The procedure's name takes no part, neither the receiver's nor the argument's. */
  lemma ProcNameIgnored<Ty, Fps>(eq: Equalities<Ty, Fps>, i: Identifier, j: Identifier, fps: Fps, obj: Object<Ty, Fps>,
                                 p: FormalParameter<Ty, Fps>)
    requires p.ProcParam?
    ensures ProcParamEquals(eq, ProcParam(i, fps), obj) == ProcParamEquals(eq, ProcParam(j, fps), obj)
    ensures ProcParamEquals(eq, p, Param(ProcParam(i, fps))) == ProcParamEquals(eq, p, Param(ProcParam(j, fps)))
  {
  }

  lemma ProcParamEqualsReflexiveSymmetric<Ty(!new), Fps(!new)>(eq: Equalities<Ty, Fps>, p: FormalParameter<Ty, Fps>, q: FormalParameter<Ty, Fps>)
    requires p.ProcParam? && q.ProcParam?
    ensures FpsEqReflexive(eq) ==> ProcParamEquals(eq, p, Param(p))
    ensures FpsEqSymmetric(eq) ==> ProcParamEquals(eq, p, Param(q)) == ProcParamEquals(eq, q, Param(p))
  {
  }
}
