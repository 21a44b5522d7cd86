/** Gene names as the correction scripts read them from V and J calls, and the
    VJJL text (V gene, J gene, junction length) built from them. */
module GeneCalls {
  import opened Strings

  /** `call.split(',')[0].split('*')[0]`: the gene of the first listed call,
      without its allele. */
  function GeneName(call: string): (g: string)
    ensures g <= call
    ensures ',' !in g && '*' !in g
  {
    Before(Before(call, ','), '*')
  }

  /** The allele after `*` never changes the gene name. */
  lemma AlleleIgnored(call: string, allele: string)
    ensures GeneName(call + "*" + allele) == GeneName(call)
  {
    var whole := call + ("*" + allele);
    assert call + "*" + allele == whole;
    BeforeAppend(call, "*" + allele, ',');
    if ',' !in call {
      BeforeAppend("*", allele, ',');
      assert Before("*" + allele, ',') == "*" + Before(allele, ',');
      assert Before(whole, ',') == call + ("*" + Before(allele, ','));
      BeforeAppend(call, "*" + Before(allele, ','), '*');
      BeforeAppend(call, [], '*');
      assert call + [] == call;
      assert Before(call, ',') == call by {
        BeforeAppend(call, [], ',');
      }
    }
  }

  /** Calls after the first `,` never change the gene name. */
  lemma SecondaryCallsIgnored(first: string, rest: string)
    ensures GeneName(first + "," + rest) == GeneName(first)
  {
    assert first + "," + rest == first + ("," + rest);
    BeforeAppend(first, "," + rest, ',');
    if ',' !in first {
      BeforeAppend(first, [], ',');
      assert first + [] == first;
    }
  }

  /** The VJJL text of a row: V gene, J gene and junction length, joined by `,`. */
  function Vjjl(vCall: string, jCall: string, junction: string): (key: string)
  {
    GeneName(vCall) + "," + GeneName(jCall) + "," + NatToString(|junction|)
  }

  /** `a + "," + r` splits uniquely at its first comma when `a` holds none. */
  lemma CommaSplit(a: string, r: string, b: string, s: string)
    requires ',' !in a && ',' !in b
    requires a + "," + r == b + "," + s
    ensures a == b && r == s
  {
    assert a + "," + r == a + ("," + r) && b + "," + s == b + ("," + s);
    CommaFreeTail(a, "," + r, b, "," + s);
    assert r == ("," + r)[1..] && s == ("," + s)[1..];
  }

  /** A comma-free text followed by an empty or comma-led tail splits uniquely. */
  lemma CommaFreeTail(a: string, t1: string, b: string, t2: string)
    requires ',' !in a && ',' !in b
    requires t1 == [] || t1[0] == ','
    requires t2 == [] || t2[0] == ','
    requires a + t1 == b + t2
    ensures a == b && t1 == t2
  {
    BeforeAppend(a, t1, ',');
    BeforeAppend(b, t2, ',');
    BeforeAppend(a, [], ',');
    BeforeAppend(b, [], ',');
    assert a + [] == a && b + [] == b;
    assert t1 != [] ==> Before(t1, ',') == [];
    assert t2 != [] ==> Before(t2, ',') == [];
    assert a == Before(a + t1, ',');
    assert t1 == (a + t1)[|a|..];
    assert t2 == (b + t2)[|b|..];
  }

  /** A numeral holds no comma. */
  lemma NumeralCommaFree(n: nat)
    ensures ',' !in NatToString(n)
  {
    var r := NatToString(n);
    forall k | 0 <= k < |r| ensures r[k] != ',' {
      assert IsDigit(r[k]);
    }
  }

  /** Two rows have the same VJJL, followed by the same kind of tail, exactly
      when their gene names and junction lengths agree and the tails agree. */
  lemma VjjlTailInjective(v1: string, j1: string, x1: string, t1: string,
                          v2: string, j2: string, x2: string, t2: string)
    requires t1 == [] || t1[0] == ','
    requires t2 == [] || t2[0] == ','
    ensures Vjjl(v1, j1, x1) + t1 == Vjjl(v2, j2, x2) + t2 <==>
            GeneName(v1) == GeneName(v2) && GeneName(j1) == GeneName(j2) &&
            |x1| == |x2| && t1 == t2
  {
    if Vjjl(v1, j1, x1) + t1 == Vjjl(v2, j2, x2) + t2 {
      var a1, a2 := GeneName(v1), GeneName(v2);
      var g1, g2 := GeneName(j1), GeneName(j2);
      var n1, n2 := NatToString(|x1|), NatToString(|x2|);
      assert Vjjl(v1, j1, x1) == a1 + "," + g1 + "," + n1;
      assert Vjjl(v2, j2, x2) == a2 + "," + g2 + "," + n2;
      Regroup(a1, g1, n1, t1);
      Regroup(a2, g2, n2, t2);
      CommaSplit(a1, g1 + "," + (n1 + t1), a2, g2 + "," + (n2 + t2));
      CommaSplit(g1, n1 + t1, g2, n2 + t2);
      NumeralCommaFree(|x1|);
      NumeralCommaFree(|x2|);
      CommaFreeTail(n1, t1, n2, t2);
      NatToStringInjective(|x1|, |x2|);
    }
  }

  lemma Regroup(a: string, g: string, n: string, t: string)
    ensures a + "," + g + "," + n + t == a + "," + (g + "," + (n + t))
  {
  }
}
