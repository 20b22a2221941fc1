/** The two tables the loans DAO works on, the effect of the one UPDATE
    statement it issues on `livros`, and the invariant that ties a book's
    `disponivel` flag to the loans that reference it. */
module Tables {
  import opened Emprestimos

  /** `UPDATE livros SET disponivel = ? WHERE id = ?`: the flag of the book
      with that id is overwritten; when no such row exists, no row is
      affected and in particular none is inserted. */
  function SetDisponivel(livros: map<int, bool>, livroId: int, disponivel: bool): (r: map<int, bool>)
    ensures r.Keys == livros.Keys
    ensures livroId in livros ==> r[livroId] == disponivel
    ensures forall b :: b in livros && b != livroId ==> r[b] == livros[b]
  {
    if livroId in livros then livros[livroId := disponivel] else livros
  }

  /** The ids of the loans that reference book `livroId`. */
  function Holders(emprestimos: map<int, Emprestimo>, livroId: int): set<int> {
    set k | k in emprestimos && emprestimos[k].livroId == livroId
  }

  /** The rules the DAO keeps: every loan references an existing book; a book
      with `disponivel = 1` is referenced by no loan, and one with
      `disponivel = 0` by exactly one. */
  ghost predicate Consistent(livros: map<int, bool>, emprestimos: map<int, Emprestimo>) {
    (forall k :: k in emprestimos ==> emprestimos[k].livroId in livros) &&
    (forall b :: b in livros ==> |Holders(emprestimos, b)| == if livros[b] then 0 else 1)
  }

  lemma HoldersAfterPut(emprestimos: map<int, Emprestimo>, k: int, e: Emprestimo, b: int)
    ensures Holders(emprestimos[k := e], b) ==
            (Holders(emprestimos, b) - {k}) + (if e.livroId == b then {k} else {})
  {
  }

  lemma HoldersAfterRemove(emprestimos: map<int, Emprestimo>, k: int, b: int)
    ensures Holders(emprestimos - {k}, b) == Holders(emprestimos, b) - {k}
  {
  }

  /** A book that is available has no loan referencing it: this is what makes
      the availability check before an INSERT sufficient. */
  lemma AvailableMeansNoLoan(livros: map<int, bool>, emprestimos: map<int, Emprestimo>, b: int)
    requires Consistent(livros, emprestimos)
    requires b in livros && livros[b]
    ensures forall k :: k in emprestimos ==> emprestimos[k].livroId != b
  {
    var h := Holders(emprestimos, b);
    assert h == {};
    forall k | k in emprestimos
      ensures emprestimos[k].livroId != b
    {
      assert k !in h;
    }
  }

  /** No two loans reference the same book: a book is lent to at most one
      borrower at a time. */
  lemma NoSharedBook(livros: map<int, bool>, emprestimos: map<int, Emprestimo>, k1: int, k2: int)
    requires Consistent(livros, emprestimos)
    requires k1 in emprestimos && k2 in emprestimos
    requires emprestimos[k1].livroId == emprestimos[k2].livroId
    ensures k1 == k2
  {
    var b := emprestimos[k1].livroId;
    var h := Holders(emprestimos, b);
    assert k1 in h && k2 in h;
    if k1 != k2 {
      assert {k1, k2} <= h;
      assert |{k1, k2}| == 2;
      SubsetCard({k1, k2}, h);
    }
  }

  lemma SubsetCard(a: set<int>, b: set<int>)
    requires a <= b
    ensures |a| <= |b|
  {
    assert b == a + (b - a);
  }

  lemma EmptyOrMember(h: set<int>)
    ensures h == {} || exists x :: x in h
  {
    if forall x :: x !in h {
      assert h == {};
    }
  }

  /** A book flag is false exactly when one loan references that book. */
  lemma UnavailableIffOneLoan(livros: map<int, bool>, emprestimos: map<int, Emprestimo>, b: int)
    requires Consistent(livros, emprestimos)
    requires b in livros
    ensures !livros[b] <==> exists k :: k in emprestimos && emprestimos[k].livroId == b
    ensures !livros[b] ==> forall k1, k2 ::
              (k1 in emprestimos && k2 in emprestimos &&
               emprestimos[k1].livroId == b && emprestimos[k2].livroId == b) ==> k1 == k2
  {
    if livros[b] {
      AvailableMeansNoLoan(livros, emprestimos, b);
    } else {
      var h := Holders(emprestimos, b);
      assert |h| == 1;
      EmptyOrMember(h);
      var k :| k in h;
      assert emprestimos[k].livroId == b;
      forall k1, k2 | k1 in emprestimos && k2 in emprestimos &&
                      emprestimos[k1].livroId == b && emprestimos[k2].livroId == b
        ensures k1 == k2
      {
        NoSharedBook(livros, emprestimos, k1, k2);
      }
    }
  }

  /** `salvar`: inserting a loan under a fresh key for an available book and
      then blocking that book keeps the tables consistent. */
  lemma SalvarKeepsConsistent(livros: map<int, bool>, emprestimos: map<int, Emprestimo>, k: int, e: Emprestimo)
    requires Consistent(livros, emprestimos)
    requires k !in emprestimos
    requires e.livroId in livros && livros[e.livroId]
    ensures Consistent(SetDisponivel(livros, e.livroId, false), emprestimos[k := e])
  {
    var livros', emprestimos' := SetDisponivel(livros, e.livroId, false), emprestimos[k := e];
    forall b | b in livros'
      ensures |Holders(emprestimos', b)| == if livros'[b] then 0 else 1
    {
      HoldersAfterPut(emprestimos, k, e, b);
      assert k !in Holders(emprestimos, b);
      assert Holders(emprestimos, b) - {k} == Holders(emprestimos, b);
      if b == e.livroId {
        assert Holders(emprestimos, b) == {};
        assert Holders(emprestimos', b) == {k};
      } else {
        assert Holders(emprestimos', b) == Holders(emprestimos, b);
      }
    }
  }

  /** `atualizar` without a change of book: rewriting the loan's other fields
      keeps the tables consistent and needs no flag change. */
  lemma AtualizarSameBookKeepsConsistent(livros: map<int, bool>, emprestimos: map<int, Emprestimo>, k: int, e: Emprestimo)
    requires Consistent(livros, emprestimos)
    requires k in emprestimos && emprestimos[k].livroId == e.livroId
    ensures Consistent(livros, emprestimos[k := e])
  {
    var emprestimos' := emprestimos[k := e];
    forall b | b in livros
      ensures Holders(emprestimos', b) == Holders(emprestimos, b)
    {
      HoldersAfterPut(emprestimos, k, e, b);
      if b == e.livroId {
        assert k in Holders(emprestimos, b);
      }
    }
  }

  /** `atualizar` with a change of book to an available one: after the row
      update, freeing the old book and blocking the new one keeps the tables
      consistent. */
  lemma AtualizarSwapKeepsConsistent(livros: map<int, bool>, emprestimos: map<int, Emprestimo>, k: int, e: Emprestimo)
    requires Consistent(livros, emprestimos)
    requires k in emprestimos && emprestimos[k].livroId != e.livroId
    requires e.livroId in livros && livros[e.livroId]
    ensures Consistent(SetDisponivel(SetDisponivel(livros, emprestimos[k].livroId, true), e.livroId, false),
                       emprestimos[k := e])
  {
    var antigo := emprestimos[k].livroId;
    var livros' := SetDisponivel(SetDisponivel(livros, antigo, true), e.livroId, false);
    var emprestimos' := emprestimos[k := e];
    assert antigo in livros;
    assert k in Holders(emprestimos, antigo);
    forall b | b in livros'
      ensures |Holders(emprestimos', b)| == if livros'[b] then 0 else 1
    {
      HoldersAfterPut(emprestimos, k, e, b);
      if b == e.livroId {
        assert k !in Holders(emprestimos, b);
        assert Holders(emprestimos, b) == {};
        assert Holders(emprestimos', b) == {k};
      } else if b == antigo {
        assert |Holders(emprestimos, b)| == 1;
        assert Holders(emprestimos, b) == {k} by {
          forall j | j in Holders(emprestimos, b) ensures j == k {
            NoSharedBook(livros, emprestimos, j, k);
          }
        }
        assert Holders(emprestimos', b) == {};
      } else {
        assert k !in Holders(emprestimos, b);
        assert Holders(emprestimos', b) == Holders(emprestimos, b);
      }
    }
  }

  /** `deletar`: removing a loan and freeing its book keeps the tables
      consistent. */
  lemma DeletarKeepsConsistent(livros: map<int, bool>, emprestimos: map<int, Emprestimo>, k: int)
    requires Consistent(livros, emprestimos)
    requires k in emprestimos
    ensures Consistent(SetDisponivel(livros, emprestimos[k].livroId, true), emprestimos - {k})
  {
    var antigo := emprestimos[k].livroId;
    var livros' := SetDisponivel(livros, antigo, true);
    var emprestimos' := emprestimos - {k};
    forall b | b in livros'
      ensures |Holders(emprestimos', b)| == if livros'[b] then 0 else 1
    {
      HoldersAfterRemove(emprestimos, k, b);
      if b == antigo {
        assert Holders(emprestimos, b) == {k} by {
          forall j | j in Holders(emprestimos, b) ensures j == k {
            NoSharedBook(livros, emprestimos, j, k);
          }
        }
        assert Holders(emprestimos', b) == {};
      } else {
        assert k !in Holders(emprestimos, b);
        assert Holders(emprestimos', b) == Holders(emprestimos, b);
      }
    }
  }
}
