/** JavaScript value conventions the plugin relies on: `null`, truthiness of
    strings, and the `a || b` fallback idiom. */
module JsValues {

  /** A possibly-`null` value: `None` stands for JSON `null` (or an absent field). */
  datatype Option<+T> = None | Some(value: T)

  /** A string-or-null is truthy iff it is present and not the empty string. */
  predicate Truthy(o: Option<string>) {
    o.Some? && o.value != ""
  }

  /** `o || fallback`: the value itself when truthy, else the fallback. */
  function OrElse(o: Option<string>, fallback: string): (r: string)
    ensures Truthy(o) ==> r == o.value
    ensures !Truthy(o) ==> r == fallback
  {
    if Truthy(o) then o.value else fallback
  }

  /** A fallback chain `a || b || c`: the result is truthy exactly when some
      link is, and it is the first truthy link. */
  lemma OrElseChain(a: Option<string>, b: Option<string>, c: string)
    ensures Truthy(Some(OrElse(a, OrElse(b, c)))) <==> Truthy(a) || Truthy(b) || c != ""
    ensures Truthy(a) ==> OrElse(a, OrElse(b, c)) == a.value
    ensures !Truthy(a) && Truthy(b) ==> OrElse(a, OrElse(b, c)) == b.value
    ensures !Truthy(a) && !Truthy(b) ==> OrElse(a, OrElse(b, c)) == c
  {
  }
}
