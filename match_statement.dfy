/*
 * Two pattern-matching classifiers: the reason phrase for an HTTP error
 * status, and the case a value falls into when matched against the literal
 * patterns 1 and 2, a two-element sequence pattern and a wildcard, tried in
 * that order.
 */
module MatchStatement {

  const BadRequest: string := "Bad request"
  const NotFound: string := "Not found"
  const Teapot: string := "I'm a teapot"
  const SomethingWrong: string := "Something's wrong with the internet"

  /** The phrase for a status: three named statuses, and one phrase for every other status. */
  function HttpError(status: int): (phrase: string)
    ensures status == 400 <==> phrase == BadRequest
    ensures status == 404 <==> phrase == NotFound
    ensures status == 418 <==> phrase == Teapot
    ensures status !in {400, 404, 418} <==> phrase == SomethingWrong
  {
    match status
    case 400 => BadRequest
    case 404 => NotFound
    case 418 => Teapot
    case _ => SomethingWrong
  }

  /** Two statuses share a phrase only when neither is one of the three named statuses, or they are equal. */
  lemma HttpErrorDistinguishesNamed(a: int, b: int)
    requires HttpError(a) == HttpError(b)
    ensures a == b || (a !in {400, 404, 418} && b !in {400, 404, 418})
  {
  }

  /**
   * The values the matcher is given: integers, booleans (which compare equal
   * to 0 and 1), strings, sequences (lists and tuples), and anything else.
   */
  datatype Value =
    | Int(i: int)
    | Bool(b: bool)
    | Str(s: string)
    | Sequence(items: seq<Value>)
    | Other

  /** The case taken; the two-element case binds both elements. */
  datatype Case = One | Two | Pair(first: Value, second: Value) | NoMatch

  /** Equality with an integer literal, under which True equals 1 and False equals 0. */
  predicate EqualsInt(v: Value, n: int)
  {
    match v
    case Int(i) => i == n
    case Bool(b) => (if b then 1 else 0) == n
    case _ => false
  }

  /** The first case whose pattern matches. Strings never match a sequence pattern. */
  function CheckValue(v: Value): (c: Case)
    ensures c.One? <==> EqualsInt(v, 1)
    ensures c.Two? <==> EqualsInt(v, 2)
    ensures c.Pair? <==> !EqualsInt(v, 1) && !EqualsInt(v, 2) && v.Sequence? && |v.items| == 2
    ensures c.Pair? ==> c.first == v.items[0] && c.second == v.items[1]
    ensures c.NoMatch? <==> !EqualsInt(v, 1) && !EqualsInt(v, 2) && !(v.Sequence? && |v.items| == 2)
  {
    if EqualsInt(v, 1) then One
    else if EqualsInt(v, 2) then Two
    else match v
      case Sequence(items) =>
        if |items| == 2 then Pair(items[0], items[1]) else NoMatch
      case _ => NoMatch
  }

  /** The demonstration call with the list [10, 20] takes the two-element case. */
  lemma CheckValueDemo()
    ensures CheckValue(Sequence([Int(10), Int(20)])) == Pair(Int(10), Int(20))
    ensures CheckValue(Bool(true)) == One
    ensures CheckValue(Str("ab")) == NoMatch
  {
  }
}
