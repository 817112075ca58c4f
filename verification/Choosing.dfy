module Choosing {
  /** Some element of a set: code that uses it holds for every order of iteration. */
  method Pick<T(==)>(s: set<T>) returns (x: T)
    requires s != {}
    ensures x in s
  {
    x :| x in s;
  }
}
