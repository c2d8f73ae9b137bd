/** Small shared vocabulary: optional values (JavaScript `undefined` or a thrown
    error on one side, a value on the other). */
module Common {

  datatype Option<+T> = None | Some(value: T)

  /** The lists one after the other. */
  function Concat<T>(xss: seq<seq<T>>): seq<T> {
    if xss == [] then [] else xss[0] + Concat(xss[1..])
  }

  function Abs(x: int): (r: nat)
    ensures r == x || r == -x
  {
    if x < 0 then -x else x
  }
}
