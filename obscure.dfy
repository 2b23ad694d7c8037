/**
 * `Obscure<T>`: a wrapper around one field that may be null, set once by the
 * constructor. A null field is `None`, any other value `Some(value)`.
 */
module Obscure {
  import opened Wrappers

  datatype Obscure<T> = Obscure(field: Option<T>) {

    /** `get()`: the field as stored, null included. */
    function Get(): Option<T>
    {
      field
    }

    /** `isPresent()`: whether `get()` is non-null. */
    function IsPresent(): (b: bool)
      ensures b <==> Get() != None
    {
      field.Some?
    }

    /** `isEmpty()`: the negation of `isPresent()`. */
    function IsEmpty(): (b: bool)
      ensures b <==> !IsPresent()
    {
      field.None?
    }

    /** `orElse(defaultObject)`: the field when present, else the default (which may itself be null). */
    function OrElse(defaultObject: Option<T>): (r: Option<T>)
      ensures IsPresent() ==> r == Get() && r != None
      ensures IsEmpty() ==> r == defaultObject
    {
      if field.Some? then field else defaultObject
    }

    /** `orElseThrow(exception)`: the field when present, else the given exception is thrown. */
    function OrElseThrow<X>(exception: X): (r: Result<T, X>)
      ensures r.Success? <==> IsPresent()
      ensures r.Success? ==> Get() == Some(r.value)
      ensures r.Failure? ==> r.error == exception
    {
      match field
      case Some(value) => Success(value)
      case None => Failure(exception)
    }

    /** `Obscure.of(value)`: a wrapper whose `get()` is `value`. */
    static function Of(value: Option<T>): (r: Obscure<T>)
      ensures r.Get() == value
    {
      Obscure(value)
    }

    /** `Obscure.empty()`: a wrapper that is empty and whose `get()` is null. */
    static function Empty(): (r: Obscure<T>)
      ensures r.IsEmpty() && r.Get() == None
    {
      Obscure(None)
    }
  }

  /** `new Obscure(field).get()` returns the constructor's argument, null included. */
  lemma GetReturnsConstructorArgument<T>(field: Option<T>)
    ensures Obscure(field).Get() == field && (field == None <==> Obscure(field).IsEmpty())
  {
  }

  /** `orElse` and `orElseThrow` agree: both yield the field when present, and neither yields it otherwise. */
  lemma OrElseAgreesWithOrElseThrow<T, X>(o: Obscure<T>, defaultObject: Option<T>, exception: X)
    ensures o.IsPresent() ==> o.OrElse(defaultObject) == Some(o.OrElseThrow(exception).value)
    ensures o.IsEmpty() ==> o.OrElse(defaultObject) == defaultObject && o.OrElseThrow(exception) == Failure(exception)
  {
  }
}
