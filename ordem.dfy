/** The order SQLite's `ORDER BY` uses on TEXT columns under its default
    BINARY collation: strings compared character by character, a proper
    prefix first. Both ordered selects of the store (`ORDER BY nome`,
    `ORDER BY disciplina`) are modelled by `OrdenarPor` over this order. */
module Ordem {

  /** Lexicographic order on strings: a proper prefix comes first, otherwise
      the first differing character decides. */
  predicate MenorOuIgual(a: string, b: string): (r: bool)
    ensures a <= b ==> r
    ensures r && |a| > 0 ==> |b| > 0 && a[0] <= b[0]
  {
    |a| == 0 || (|b| > 0 && (a[0] < b[0] || (a[0] == b[0] && MenorOuIgual(a[1..], b[1..]))))
  }

  lemma {:induction false} OrdemTotal(a: string, b: string)
    ensures MenorOuIgual(a, b) || MenorOuIgual(b, a)
  {
    if |a| > 0 && |b| > 0 && a[0] == b[0] {
      OrdemTotal(a[1..], b[1..]);
    }
  }

  lemma {:induction false} OrdemReflexiva(a: string)
    ensures MenorOuIgual(a, a)
  {
    if |a| > 0 {
      OrdemReflexiva(a[1..]);
    }
  }

  lemma {:induction false} OrdemTransitiva(a: string, b: string, c: string)
    requires MenorOuIgual(a, b) && MenorOuIgual(b, c)
    ensures MenorOuIgual(a, c)
  {
    if |a| > 0 && a[0] == b[0] && b[0] == c[0] {
      OrdemTransitiva(a[1..], b[1..], c[1..]);
    }
  }

  /** The rows of `s` are in non-decreasing order of `chave`. */
  ghost predicate Ordenada<T>(s: seq<T>, chave: T -> string)
  {
    forall i, j :: 0 <= i < j < |s| ==> MenorOuIgual(chave(s[i]), chave(s[j]))
  }

  /** No two rows of `s` share a value of `chave`. */
  ghost predicate ChavesDistintas<T>(s: seq<T>, chave: T -> string)
  {
    forall i, j :: 0 <= i < j < |s| ==> chave(s[i]) != chave(s[j])
  }

  /** Inserts `x` before the first row whose key is not smaller. */
  function Inserir<T>(x: T, s: seq<T>, chave: T -> string): (r: seq<T>)
    ensures multiset(r) == multiset(s) + multiset{x}
  {
    if s == [] then [x]
    else if MenorOuIgual(chave(x), chave(s[0])) then [x] + s
    else
      assert s == [s[0]] + s[1..];
      [s[0]] + Inserir(x, s[1..], chave)
  }

  /** The rows of `s` sorted by `chave`; rows with equal keys keep their order. */
  function OrdenarPor<T>(s: seq<T>, chave: T -> string): (r: seq<T>)
    ensures multiset(r) == multiset(s)
  {
    if s == [] then []
    else
      assert s == [s[0]] + s[1..];
      Inserir(s[0], OrdenarPor(s[1..], chave), chave)
  }

  lemma {:induction false} InserirOrdenada<T>(x: T, s: seq<T>, chave: T -> string)
    requires Ordenada(s, chave)
    ensures Ordenada(Inserir(x, s, chave), chave)
  {
    if s == [] {
    } else if MenorOuIgual(chave(x), chave(s[0])) {
      forall y | y in s ensures MenorOuIgual(chave(x), chave(y)) {
        var t :| 0 <= t < |s| && s[t] == y;
        if t > 0 {
          OrdemTransitiva(chave(x), chave(s[0]), chave(y));
        }
      }
      Prefixar(x, s, chave);
    } else {
      OrdemTotal(chave(x), chave(s[0]));
      Cauda(s, chave);
      var resto := Inserir(x, s[1..], chave);
      InserirOrdenada(x, s[1..], chave);
      forall y | y in resto ensures MenorOuIgual(chave(s[0]), chave(y)) {
        assert y in multiset(resto);
        if y != x {
          assert y in multiset(s[1..]);
          var t :| 0 <= t < |s[1..]| && s[1..][t] == y;
          assert s[t + 1] == y;
        }
      }
      Prefixar(s[0], resto, chave);
    }
  }

  /** A row whose key is at most every key of a sorted sequence can go in
      front of it. */
  lemma Prefixar<T>(x: T, t: seq<T>, chave: T -> string)
    requires Ordenada(t, chave)
    requires forall y :: y in t ==> MenorOuIgual(chave(x), chave(y))
    ensures Ordenada([x] + t, chave)
  {
    var r := [x] + t;
    forall i, j | 0 <= i < j < |r| ensures MenorOuIgual(chave(r[i]), chave(r[j])) {
      assert r[j] == t[j - 1] && t[j - 1] in t;
      if i > 0 { assert r[i] == t[i - 1]; }
    }
  }

  lemma {:induction false} OrdenarPorOrdenada<T>(s: seq<T>, chave: T -> string)
    ensures Ordenada(OrdenarPor(s, chave), chave)
  {
    if s != [] {
      OrdenarPorOrdenada(s[1..], chave);
      InserirOrdenada(s[0], OrdenarPor(s[1..], chave), chave);
    }
  }

  lemma {:induction false} InserirChavesDistintas<T>(x: T, s: seq<T>, chave: T -> string)
    requires ChavesDistintas(s, chave)
    requires forall y :: y in s ==> chave(y) != chave(x)
    ensures ChavesDistintas(Inserir(x, s, chave), chave)
  {
    if s == [] {
    } else if MenorOuIgual(chave(x), chave(s[0])) {
      PrefixarDistinta(x, s, chave);
    } else {
      Cauda(s, chave);
      var resto := Inserir(x, s[1..], chave);
      InserirChavesDistintas(x, s[1..], chave);
      forall y | y in resto ensures chave(s[0]) != chave(y) {
        assert y in multiset(resto);
        if y != x {
          assert y in multiset(s[1..]);
          var t :| 0 <= t < |s[1..]| && s[1..][t] == y;
          assert s[t + 1] == y;
        }
      }
      PrefixarDistinta(s[0], resto, chave);
    }
  }

  /** A row whose key no row of `t` has can go in front of it. */
  lemma PrefixarDistinta<T>(x: T, t: seq<T>, chave: T -> string)
    requires ChavesDistintas(t, chave)
    requires forall y :: y in t ==> chave(x) != chave(y)
    ensures ChavesDistintas([x] + t, chave)
  {
    var r := [x] + t;
    forall i, j | 0 <= i < j < |r| ensures chave(r[i]) != chave(r[j]) {
      assert r[j] == t[j - 1] && t[j - 1] in t;
      if i > 0 { assert r[i] == t[i - 1]; }
    }
  }

  lemma {:induction false} OrdenarPorChavesDistintas<T>(s: seq<T>, chave: T -> string)
    requires ChavesDistintas(s, chave)
    ensures ChavesDistintas(OrdenarPor(s, chave), chave)
  {
    if s != [] {
      var resto := OrdenarPor(s[1..], chave);
      OrdenarPorChavesDistintas(s[1..], chave);
      forall y | y in resto ensures chave(y) != chave(s[0]) {
        assert y in multiset(resto);
        assert y in multiset(s[1..]);
        var t :| 0 <= t < |s[1..]| && s[1..][t] == y;
        assert s[t + 1] == y;
      }
      InserirChavesDistintas(s[0], resto, chave);
    }
  }

  lemma {:induction false} OrdemAntissimetrica(a: string, b: string)
    requires MenorOuIgual(a, b) && MenorOuIgual(b, a)
    ensures a == b
  {
    if |a| > 0 {
      OrdemAntissimetrica(a[1..], b[1..]);
      assert a == [a[0]] + a[1..] && b == [b[0]] + b[1..];
    }
  }

  /** When no two rows share a key, there is only one sorted arrangement of
      them: the result of an ordered select does not depend on the order in
      which the rows were inserted. */
  lemma {:induction false} OrdenacaoUnica<T>(a: seq<T>, b: seq<T>, chave: T -> string)
    requires Ordenada(a, chave) && Ordenada(b, chave)
    requires multiset(a) == multiset(b)
    requires ChavesDistintas(a, chave)
    ensures a == b
  {
    assert |b| == |multiset(b)| == |multiset(a)| == |a|;
    if a != [] {
      MesmaCabeca(a, b, chave);
      assert a == [a[0]] + a[1..] && b == [b[0]] + b[1..];
      assert multiset(a[1..]) == multiset(a) - multiset{a[0]} == multiset(b) - multiset{b[0]} == multiset(b[1..]);
      Cauda(a, chave);
      Cauda(b, chave);
      OrdenacaoUnica(a[1..], b[1..], chave);
    }
  }

  /** Two sorted arrangements of the same rows with distinct keys start with
      the same row. */
  lemma MesmaCabeca<T>(a: seq<T>, b: seq<T>, chave: T -> string)
    requires a != [] && |a| == |b|
    requires Ordenada(a, chave) && Ordenada(b, chave)
    requires multiset(a) == multiset(b)
    requires ChavesDistintas(a, chave)
    ensures a[0] == b[0]
  {
    assert a[0] in multiset(b) && b[0] in multiset(a);
    var j :| 0 <= j < |b| && b[j] == a[0];
    var i :| 0 <= i < |a| && a[i] == b[0];
    OrdemReflexiva(chave(a[0]));
    OrdemReflexiva(chave(b[0]));
    assert MenorOuIgual(chave(a[0]), chave(a[i]));
    assert MenorOuIgual(chave(b[0]), chave(b[j]));
    OrdemAntissimetrica(chave(a[0]), chave(b[0]));
    assert i == 0;
  }

  /** Dropping the first row keeps a sequence sorted and its keys distinct. */
  lemma Cauda<T>(s: seq<T>, chave: T -> string)
    requires s != []
    ensures Ordenada(s, chave) ==> Ordenada(s[1..], chave)
    ensures ChavesDistintas(s, chave) ==> ChavesDistintas(s[1..], chave)
  {
    assert forall x :: 0 <= x < |s[1..]| ==> s[1..][x] == s[x + 1];
  }
}
