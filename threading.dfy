/** The threading parameters of a folder view and when two of them count as
    the same: with threading off nothing else matters. */
module Threading {

  datatype ThreadParams = ThreadParams(
    useThreading: bool,
    simplifyingRegex: string,
    replacementString: string,
    gatherSubjects: bool,
    breakThread: bool,
    indentIfDummyNode: bool)

  /** ThreadParams(): all flags off, both strings empty. */
  function DefaultParams(): (p: ThreadParams)
    ensures !p.useThreading && !p.gatherSubjects && !p.breakThread && !p.indentIfDummyNode
    ensures p.simplifyingRegex == [] && p.replacementString == []
  {
    ThreadParams(false, [], [], false, false, false)
  }

  /** ThreadParams::operator==. */
  predicate Same(a: ThreadParams, b: ThreadParams)
  {
    if a.useThreading != b.useThreading then false
    else if !a.useThreading then true
    else
      && a.simplifyingRegex == b.simplifyingRegex
      && a.replacementString == b.replacementString
      && a.gatherSubjects == b.gatherSubjects
      && a.breakThread == b.breakThread
      && a.indentIfDummyNode == b.indentIfDummyNode
  }

  /** What threading depends on: with threading off, only that it is off. */
  function Effective(p: ThreadParams): (e: ThreadParams)
    ensures e.useThreading == p.useThreading
    ensures p.useThreading ==> e == p
    ensures !p.useThreading ==> e == DefaultParams()
  {
    if p.useThreading then p else DefaultParams()
  }

  /** Two parameter sets are the same exactly when they have the same effect:
      operator== is the kernel of Effective. */
  lemma SameIffSameEffect(a: ThreadParams, b: ThreadParams)
    ensures Same(a, b) <==> Effective(a) == Effective(b)
  {
  }

  /** Parameters differing in whether threading is on are never the same. */
  lemma DifferentThreadingNotSame(a: ThreadParams, b: ThreadParams)
    requires a.useThreading != b.useThreading
    ensures !Same(a, b)
  {
  }

  /** With threading off on both sides all other fields are ignored. */
  lemma ThreadingOffAllSame(a: ThreadParams, b: ThreadParams)
    requires !a.useThreading && !b.useThreading
    ensures Same(a, b)
  {
  }

  /** With threading on, every other field must match. */
  lemma ThreadingOnSameIff(a: ThreadParams, b: ThreadParams)
    requires a.useThreading && b.useThreading
    ensures Same(a, b) <==> a == b
  {
  }

  /** operator== is an equivalence relation. */
  lemma SameIsEquivalence(a: ThreadParams, b: ThreadParams, c: ThreadParams)
    ensures Same(a, a)
    ensures Same(a, b) ==> Same(b, a)
    ensures Same(a, b) && Same(b, c) ==> Same(a, c)
  {
    SameIffSameEffect(a, a);
    SameIffSameEffect(a, b);
    SameIffSameEffect(b, a);
    SameIffSameEffect(b, c);
    SameIffSameEffect(a, c);
  }
}
