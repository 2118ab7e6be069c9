// Comparison functions, as the sorting and searching code takes them.
module Orders {

  type Less = (int, int) -> bool

  // Irreflexive, transitive, and with transitive incomparability.
  ghost predicate StrictWeak(f: Less) {
    && (forall x :: !f(x, x))
    && (forall x, y, z :: f(x, y) && f(y, z) ==> f(x, z))
    && (forall x, y, z :: f(x, z) ==> f(x, y) || f(y, z))
  }

  lemma Asymmetric(f: Less, x: int, y: int)
    requires StrictWeak(f) && f(x, y)
    ensures !f(y, x)
  {
  }

  lemma Chain(f: Less, x: int, y: int, z: int)
    requires StrictWeak(f) && f(x, y) && f(y, z)
    ensures f(x, z)
  {
  }

  lemma Between(f: Less, x: int, y: int, z: int)
    requires StrictWeak(f) && f(x, z)
    ensures f(x, y) || f(y, z)
  {
  }

  lemma Irreflexive(f: Less, x: int)
    requires StrictWeak(f)
    ensures !f(x, x)
  {
  }
}
