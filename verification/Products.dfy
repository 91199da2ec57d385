/** Products and quotients of natural numbers, kept apart from the proofs that use them. */
module Products {
  /** A product. */
  ghost function Times(a: nat, b: nat): nat {
    a * b
  }

  lemma TimesAssociates(a: nat, b: nat, c: nat)
    ensures Times(a, Times(b, c)) == Times(Times(a, b), c)
  {
    assert a * (b * c) == (a * b) * c;
  }

  lemma TimesOne(a: nat)
    ensures Times(1, a) == a && Times(a, 1) == a && Times(0, a) == 0
  {
  }

  lemma TimesStep(a: nat, w: nat)
    ensures Times(a + 1, w) == Times(a, w) + w
  {
    assert (a + 1) * w == a * w + w;
  }

  lemma TimesMono(a: nat, b: nat, w: nat)
    requires a <= b
    ensures Times(a, w) <= Times(b, w)
  {
  }

  lemma TimesGrows(a: nat, c: nat)
    requires c >= 1
    ensures Times(a, c) >= a
  {
  }

  lemma TimesGrows'(a: nat, c: nat)
    requires a >= 1
    ensures Times(a, c) >= c
  {
  }

  lemma TimesCancels(a: nat, b: nat, w: nat)
    requires w >= 1 && Times(a, w) == Times(b, w)
    ensures a == b
  {
    hide Times;
    if a < b {
      TimesStep(a, w);
      TimesMono(a + 1, b, w);
    } else if b < a {
      TimesStep(b, w);
      TimesMono(b + 1, a, w);
    }
  }

  lemma DivideUnique(j: nat, d: nat, u: nat, s: nat)
    requires d >= 1 && s < d && j == Times(u, d) + s
    ensures j / d == u
  {
    var q, r := j / d, j % d;
    assert j == Times(q, d) + r && r < d;
    hide Times;
    if q < u {
      TimesStep(q, d);
      TimesMono(q + 1, u, d);
    } else if u < q {
      TimesStep(u, d);
      TimesMono(u + 1, q, d);
    }
  }

  lemma DivideBound(j: nat, a: nat, n: nat)
    requires a >= 1
    ensures j < Times(n, a) <==> j / a < n
  {
    var q, r := j / a, j % a;
    assert j == Times(q, a) + r && r < a;
    hide Times;
    if q < n {
      TimesStep(q, a);
      TimesMono(q + 1, n, a);
    } else {
      TimesMono(n, q, a);
    }
  }

  lemma DivideTwice(j: nat, a: nat, c: nat)
    requires a >= 1 && c >= 1
    ensures Times(c, a) >= 1 && (j / a) / c == j / Times(c, a)
  {
    var q, r := j / a, j % a;
    var u, v := q / c, q % c;
    assert j == Times(q, a) + r && q == Times(u, c) + v;
    assert Times(Times(u, c) + v, a) == Times(u, Times(c, a)) + Times(v, a) by {
      assert (u * c + v) * a == u * (c * a) + v * a;
    }
    hide Times;
    TimesGrows(c, a);
    TimesStep(v, a);
    TimesMono(v + 1, c, a);
    DivideUnique(j, Times(c, a), u, Times(v, a) + r);
  }
}
