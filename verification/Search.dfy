// The running best of an exhaustive loop: what a loop that keeps the better of
// "best so far" and "this one" holds on to.
module Search {
  import opened Orders

  ghost predicate StrictOrder<C(!new)>(beats: (C, C) -> bool) {
    (forall a :: !beats(a, a)) && forall a, b, c :: beats(a, b) && beats(b, c) ==> beats(a, c)
  }

  // Of the admissible candidates tried, none beats the one kept.
  ghost predicate Champion<C>(adm: C -> bool, beats: (C, C) -> bool, tried: set<C>, best: Option<C>) {
    && (best.None? ==> forall c | c in tried :: !adm(c))
    && (best.Some? ==> adm(best.value) && forall c | c in tried && adm(c) :: !beats(c, best.value))
  }

  lemma Challenge<C(!new)>(adm: C -> bool, beats: (C, C) -> bool, tried: set<C>, best: Option<C>, c: C)
    requires Champion(adm, beats, tried, best) && StrictOrder(beats)
    ensures !adm(c) ==> Champion(adm, beats, tried + {c}, best)
    ensures adm(c) && (best.None? || beats(c, best.value)) ==> Champion(adm, beats, tried + {c}, Some(c))
    ensures adm(c) && best.Some? && !beats(c, best.value) ==> Champion(adm, beats, tried + {c}, best)
  {
    if adm(c) && best.Some? && beats(c, best.value) {
      forall d | d in tried + {c} && adm(d) ensures !beats(d, c) {
        if d != c { assert !beats(d, best.value); }
      }
    }
  }
}
