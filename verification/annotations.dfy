/** The annotations the mapping layer reads: JPA's `@Column`, `@Transient`,
    `@Id` and `@Table`, and the library's own `@CopyBehavior` and
    `@DefaultOrder`, each with the attribute defaults of its declaration. */
module Annotations {
  import opened Wrappers
  import opened CopyBehavior
  import opened DefaultOrder

  datatype Annotation =
    | Column(name: string, insertable: bool, updatable: bool)
    | Transient
    | Id
    | Table(tableName: string)
    | CopyBehaviorAnn(behavior: Behavior)
    | DefaultOrderAnn(order: int, direction: Direction)
    | OtherAnnotation(annotationName: string)

  /** The annotation classes a lookup can ask for. */
  datatype AnnotationType = ColumnType | TransientType | IdType | TableType | CopyBehaviorType | DefaultOrderType

  predicate IsOfType(a: Annotation, t: AnnotationType) {
    match t
    case ColumnType => a.Column?
    case TransientType => a.Transient?
    case IdType => a.Id?
    case TableType => a.Table?
    case CopyBehaviorType => a.CopyBehaviorAnn?
    case DefaultOrderType => a.DefaultOrderAnn?
  }

  /** `@Column` with every attribute left at its default. */
  const DEFAULT_COLUMN: Annotation := Column("", true, true)

  /** `element.getAnnotation(type)`: the annotation of that type on the
      element, if any. */
  function FindAnnotation(anns: seq<Annotation>, t: AnnotationType): (r: Option<Annotation>)
    ensures r.Some? ==> r.value in anns && IsOfType(r.value, t)
    ensures r.None? <==> forall i :: 0 <= i < |anns| ==> !IsOfType(anns[i], t)
  {
    if |anns| == 0 then None
    else if IsOfType(anns[0], t) then Some(anns[0])
    else FindAnnotation(anns[1..], t)
  }
}
