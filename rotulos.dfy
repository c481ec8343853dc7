/** The combo-box labels of the form: a student is shown as
    `matricula - nome`, and the matricula of the selected entry is read back
    as the part of the label before the first `" - "` (Python's
    `label.split(" - ")[0]`). */
module Rotulos {

  import opened Tabelas

  const Separador: string := " - "

  /** The separator starts at position `i` of `s`. */
  predicate OcorreEm(s: string, i: nat)
  {
    i + |Separador| <= |s| && s[i..i + |Separador|] == Separador
  }

  /** The separator occurs somewhere in `s`. */
  predicate Contem(s: string)
  {
    exists i: nat :: i <= |s| && OcorreEm(s, i)
  }

  /** The label `f"{a[0]} - {a[1]}"` of one student row. */
  function Rotulo(a: Aluno): (r: string)
    ensures |r| == |a.matricula| + |Separador| + |a.nome|
    ensures r[..|a.matricula|] == a.matricula && OcorreEm(r, |a.matricula|)
    ensures r[|a.matricula| + |Separador|..] == a.nome
  {
    a.matricula + Separador + a.nome
  }

  /** The combo values built from the rows `listar_alunos` returns. */
  function RotulosCombo(alunos: seq<Aluno>): (r: seq<string>)
    ensures |r| == |alunos|
    ensures forall i :: 0 <= i < |r| ==>
      OcorreEm(r[i], |alunos[i].matricula|) && r[i][..|alunos[i].matricula|] == alunos[i].matricula
      && r[i][|alunos[i].matricula| + |Separador|..] == alunos[i].nome
  {
    seq(|alunos|, i requires 0 <= i < |alunos| => Rotulo(alunos[i]))
  }

  /** `s.split(" - ")[0]`: the text before the leftmost separator, or all of
      `s` when there is none. */
  function PrimeiroCampo(s: string): (r: string)
    ensures r <= s
    ensures forall i: nat :: i < |r| ==> !OcorreEm(s, i)
    ensures r == s || OcorreEm(s, |r|)
  {
    if |s| < |Separador| then s
    else if s[..|Separador|] == Separador then ""
    else
      var r := PrimeiroCampo(s[1..]);
      PrimeiroCampoPasso(s, r);
      [s[0]] + r
  }

  /** The first field of `s` is its first character followed by the first
      field of the rest, when `s` does not start with the separator. */
  lemma PrimeiroCampoPasso(s: string, r: string)
    requires |s| >= |Separador| && s[..|Separador|] != Separador
    requires r <= s[1..]
    requires forall i: nat :: i < |r| ==> !OcorreEm(s[1..], i)
    requires r == s[1..] || OcorreEm(s[1..], |r|)
    ensures [s[0]] + r <= s
    ensures forall i: nat :: i < |r| + 1 ==> !OcorreEm(s, i)
    ensures [s[0]] + r == s || OcorreEm(s, |r| + 1)
  {
    forall i: nat | i < |r| + 1 ensures !OcorreEm(s, i) {
      if i == 0 {
        assert s[0..|Separador|] == s[..|Separador|];
      } else {
        OcorreNaCauda(s, i - 1);
      }
    }
    if r == s[1..] {
      assert [s[0]] + s[1..] == s;
    } else {
      OcorreNaCauda(s, |r|);
    }
  }

  lemma OcorreNaCauda(s: string, i: nat)
    requires |s| > 0
    ensures OcorreEm(s, i + 1) <==> OcorreEm(s[1..], i)
  {
    if i + 1 + |Separador| <= |s| {
      assert s[i + 1..i + 1 + |Separador|] == s[1..][i..i + |Separador|];
    }
  }

  /** A prefix followed by a separator, with none starting earlier, is the
      first field. */
  lemma PrimeiroCampoEm(s: string, k: nat)
    requires OcorreEm(s, k)
    requires forall i: nat :: i < k ==> !OcorreEm(s, i)
    ensures PrimeiroCampo(s) == s[..k]
  {
    var r := PrimeiroCampo(s);
    assert |r| == k;
  }

  /** Within the matricula part, a separator in the label is a separator in
      `matricula + " "`. */
  lemma OcorreNoRotulo(a: Aluno, i: nat)
    requires i < |a.matricula|
    ensures OcorreEm(Rotulo(a), i) <==> OcorreEm(a.matricula + " ", i)
  {
    var s, m := Rotulo(a), a.matricula;
    if i + 2 == |m| + 1 || i + 1 == |m| {
      // the window reaches past `m + " "` only where the separator cannot fit
      assert s[|m|] == ' ' && s[|m| + 1] == '-';
    }
    if i + |Separador| <= |m| + 1 {
      assert forall k :: 0 <= k <= |m| ==> s[k] == (m + " ")[k];
      assert s[i..i + |Separador|] == (m + " ")[i..i + |Separador|];
    }
  }

  /** The matricula written in a label is recovered from it exactly when
      `matricula + " "` holds no separator, that is, when the matricula
      contains no `" - "` and does not end in `" -"`. */
  lemma {:induction false} RecuperaMatricula(a: Aluno)
    ensures PrimeiroCampo(Rotulo(a)) == a.matricula <==> !Contem(a.matricula + " ")
  {
    var s, m := Rotulo(a), a.matricula;
    assert OcorreEm(s, |m|) by {
      assert s[|m|..|m| + |Separador|] == Separador;
    }
    if !Contem(m + " ") {
      forall i: nat | i < |m| ensures !OcorreEm(s, i) {
        OcorreNoRotulo(a, i);
      }
      PrimeiroCampoEm(s, |m|);
      assert s[..|m|] == m;
    }
    if PrimeiroCampo(s) == m && Contem(m + " ") {
      var i: nat :| i <= |m| + 1 && OcorreEm(m + " ", i);
      OcorreNoRotulo(a, i);
      assert false;
    }
  }

  /** `matricula + " "` holds a separator exactly when the matricula holds
      one or ends in `" -"`. */
  lemma ContemComEspaco(m: string)
    ensures Contem(m + " ") <==> Contem(m) || (|m| >= 2 && m[|m| - 2..] == " -")
  {
    var t := m + " ";
    if Contem(t) {
      var i: nat :| i <= |t| && OcorreEm(t, i);
      if i + |Separador| <= |m| {
        assert m[i..i + |Separador|] == t[i..i + |Separador|];
        assert OcorreEm(m, i);
      } else {
        assert t[i..i + |Separador|][1] == t[i + 1] == '-';
        assert t[|m|] == ' ';
        assert i + 1 != |m|;
        assert i == |m| - 2;
        assert m[|m| - 2..] == [t[i], t[i + 1]] == " -";
      }
    }
    if Contem(m) {
      var i: nat :| i <= |m| && OcorreEm(m, i);
      assert t[i..i + |Separador|] == m[i..i + |Separador|];
      assert OcorreEm(t, i);
    }
    if |m| >= 2 && m[|m| - 2..] == " -" {
      assert t[|m| - 2..|m| + 1] == Separador;
      assert OcorreEm(t, |m| - 2);
    }
  }

  /** A matricula without `" - "` can still fail to round-trip: `"12 -"`
      is shown as `"12 - - Ana"`, which is read back as `"12"`. */
  lemma MatriculaTerminadaEmHifen()
    ensures PrimeiroCampo(Rotulo(Aluno("12 -", "Ana"))) == "12"
    ensures !Contem("12 -")
  {
    var s := Rotulo(Aluno("12 -", "Ana"));
    assert |s| == 10 && s[0] == '1' && s[1] == '2' && s[2] == ' ' && s[3] == '-' && s[4] == ' ';
    assert s[0..3][0] == '1' && s[1..4][0] == '2';
    assert s[2..5] == [s[2], s[3], s[4]] == Separador;
    PrimeiroCampoEm(s, 2);
    assert s[..2] == [s[0], s[1]] == "12";
    var m := "12 -";
    assert m[0] == '1' && m[1] == '2';
    forall i: nat | i <= |m| ensures !OcorreEm(m, i) {
      if i + |Separador| <= |m| {
        assert m[i..i + |Separador|][0] == m[i];
      }
    }
  }

  /** Selecting entry `i` of the combo and splitting its label yields the
      matricula of row `i`, provided that matricula round-trips. */
  lemma SelecaoRecuperaMatricula(alunos: seq<Aluno>, i: nat)
    requires i < |alunos|
    requires !Contem(alunos[i].matricula + " ")
    ensures PrimeiroCampo(RotulosCombo(alunos)[i]) == alunos[i].matricula
  {
    RecuperaMatricula(alunos[i]);
  }
}
