/** The loans DAO (`EmprestimoDAO`) over an in-memory copy of its two tables.
    Each public operation runs as one atomic step; every SQL statement it
    issues is a map update, and every failure the source reports before
    changing anything (after a rollback, or before any transaction opens) is
    an error result that leaves both tables as they were. */
module Dao {
  import opened Emprestimos
  import opened Tables

  /** The failures the DAO reports with both tables unchanged. */
  datatype Falha =
    | LivroNaoEncontrado(livroId: int)      // no `livros` row with that id
    | LivroEmprestado(livroId: int)         // the book's `disponivel` is 0
    | EmprestimoNaoEncontrado(id: int)      // `atualizar` of a loan id with no row

  datatype Result<+T> = Ok(value: T) | Err(error: Falha)

  datatype Outcome = Pass | Fail(error: Falha)

  /** Loans in strictly decreasing order of id, as `ORDER BY id DESC` yields them. */
  predicate StrictlyDescending(lista: seq<Emprestimo>) {
    forall i, j :: 0 <= i < j < |lista| ==> lista[i].id > lista[j].id
  }

  class EmprestimoDAO {
    /** Table `livros`: book id -> `disponivel`. */
    var livros: map<int, bool>
    /** Table `emprestimos`: loan id -> row, held in decoded form. Reading a
        row back through the `map` helper would give the same record, since
        `DecodeRow(EncodeRow(e)) == Some(e)` (lemma `DecodeEncode`). */
    var emprestimos: map<int, Emprestimo>
    /** The next value of the auto-increment key of `emprestimos`. */
    var nextId: int

    /** The shape of the loans table: every row sits under its own id, and
        every id lies below the next auto-increment value. */
    ghost predicate Valid()
      reads this
    {
      1 <= nextId &&
      (forall k :: k in emprestimos ==> 1 <= k < nextId && emprestimos[k].id == k)
    }

    /** The rules of the DAO hold between the two tables. */
    ghost predicate Consistente()
      reads this
    {
      Consistent(livros, emprestimos)
    }

    /** A store with the given books and no loans; it is consistent exactly
        when every book is available. */
    constructor (livros: map<int, bool>)
      ensures Valid()
      ensures this.livros == livros && emprestimos == map[] && nextId == 1
      ensures Consistente() <==> forall b :: b in livros ==> livros[b]
    {
      this.livros := livros;
      emprestimos := map[];
      nextId := 1;
      forall b | b in livros
        ensures Holders(map[], b) == {}
      {
      }
    }

    /** `salvar`: lock and check the book, insert the loan under a fresh id,
        then mark the book unavailable. Returns the loan with its new id, as
        the source stores the generated key into its argument. */
    method Salvar(e: Emprestimo) returns (r: Result<Emprestimo>)
      requires Valid()
      modifies this
      ensures Valid()
      ensures old(Consistente()) ==> Consistente()
      ensures livros.Keys == old(livros).Keys
      ensures e.livroId !in old(livros) ==> r == Err(LivroNaoEncontrado(e.livroId))
      ensures e.livroId in old(livros) && !old(livros)[e.livroId] ==> r == Err(LivroEmprestado(e.livroId))
      ensures e.livroId in old(livros) && old(livros)[e.livroId] ==> r.Ok?
      ensures r.Err? ==>
        livros == old(livros) && emprestimos == old(emprestimos) && nextId == old(nextId)
      ensures r.Ok? ==>
        r.value == e.(id := r.value.id) &&
        r.value.id == old(nextId) && nextId == old(nextId) + 1 &&
        r.value.id !in old(emprestimos) &&
        emprestimos == old(emprestimos)[r.value.id := r.value] &&
        livros == old(livros)[e.livroId := false]
    {
      // SELECT disponivel FROM livros WHERE id = ? FOR UPDATE
      if e.livroId !in livros {
        return Err(LivroNaoEncontrado(e.livroId));
      }
      if !livros[e.livroId] {
        return Err(LivroEmprestado(e.livroId));
      }
      // INSERT INTO emprestimos ..., reading back the generated key
      var salvo := e.(id := nextId);
      nextId := nextId + 1;
      if Consistente() {
        SalvarKeepsConsistent(livros, emprestimos, salvo.id, salvo);
      }
      emprestimos := emprestimos[salvo.id := salvo];
      // UPDATE livros SET disponivel = 0 WHERE id = ?
      livros := SetDisponivel(livros, e.livroId, false);
      r := Ok(salvo);
    }

    /** `listar`: every loan in the table, most recent (highest id) first. */
    method Listar() returns (lista: seq<Emprestimo>)
      requires Valid()
      ensures StrictlyDescending(lista)
      ensures forall i :: 0 <= i < |lista| ==>
                lista[i].id in emprestimos && emprestimos[lista[i].id] == lista[i]
      ensures forall k :: k in emprestimos ==> emprestimos[k] in lista
    {
      lista := [];
      var k := nextId - 1;
      while k > 0
        invariant 0 <= k < nextId
        invariant StrictlyDescending(lista)
        invariant forall i :: 0 <= i < |lista| ==>
                    k < lista[i].id && lista[i].id in emprestimos && emprestimos[lista[i].id] == lista[i]
        invariant forall x :: x in emprestimos && k < x ==> emprestimos[x] in lista
      {
        if k in emprestimos {
          lista := lista + [emprestimos[k]];
        }
        k := k - 1;
      }
    }

    /** `buscarPorId`: the loan stored under `id`, or None when there is none. */
    function BuscarPorId(id: int): (r: Option<Emprestimo>)
      reads this
      requires Valid()
      ensures r.Some? <==> id in emprestimos
      ensures r.Some? ==> r.value.id == id && emprestimos[id] == r.value
    {
      if id in emprestimos then Some(emprestimos[id]) else None
    }

    /** `atualizar`: rewrite the loan's fields; when its book changes, lock and
        check the new book, free the old one and block the new one. */
    method Atualizar(e: Emprestimo) returns (r: Outcome)
      requires Valid()
      modifies this
      ensures Valid()
      ensures old(Consistente()) ==> Consistente()
      ensures livros.Keys == old(livros).Keys && nextId == old(nextId)
      ensures e.id !in old(emprestimos) ==> r == Fail(EmprestimoNaoEncontrado(e.id))
      ensures r.Fail? ==> livros == old(livros) && emprestimos == old(emprestimos)
      ensures e.id in old(emprestimos) && old(emprestimos)[e.id].livroId == e.livroId ==>
        r == Pass && livros == old(livros)
      ensures e.id in old(emprestimos) && old(emprestimos)[e.id].livroId != e.livroId ==>
        (e.livroId !in old(livros) ==> r == Fail(LivroNaoEncontrado(e.livroId))) &&
        (e.livroId in old(livros) && !old(livros)[e.livroId] ==> r == Fail(LivroEmprestado(e.livroId))) &&
        (e.livroId in old(livros) && old(livros)[e.livroId] ==>
           r == Pass &&
           livros == SetDisponivel(SetDisponivel(old(livros), old(emprestimos)[e.id].livroId, true),
                                   e.livroId, false))
      ensures r == Pass ==> emprestimos == old(emprestimos)[e.id := e]
    {
      var antes := BuscarPorId(e.id);
      if antes.None? {
        return Fail(EmprestimoNaoEncontrado(e.id));
      }
      var trocou := antes.value.livroId != e.livroId;
      if trocou {
        // SELECT disponivel FROM livros WHERE id = ? FOR UPDATE (the new book)
        if e.livroId !in livros {
          return Fail(LivroNaoEncontrado(e.livroId));
        }
        if !livros[e.livroId] {
          return Fail(LivroEmprestado(e.livroId));
        }
        if Consistente() {
          AtualizarSwapKeepsConsistent(livros, emprestimos, e.id, e);
        }
      } else if Consistente() {
        AtualizarSameBookKeepsConsistent(livros, emprestimos, e.id, e);
      }
      // UPDATE emprestimos SET id_livro = ?, id_usuario = ?, ... WHERE id = ?
      emprestimos := emprestimos[e.id := e];
      if trocou {
        // UPDATE livros SET disponivel = 1 WHERE id = <old book>
        livros := SetDisponivel(livros, antes.value.livroId, true);
        // UPDATE livros SET disponivel = 0 WHERE id = <new book>
        livros := SetDisponivel(livros, e.livroId, false);
      }
      r := Pass;
    }

    /** `deletar`: remove the loan and make its book available again; a
        missing id is not an error and changes nothing. */
    method Deletar(id: int)
      requires Valid()
      modifies this
      ensures Valid()
      ensures old(Consistente()) ==> Consistente()
      ensures livros.Keys == old(livros).Keys && nextId == old(nextId)
      ensures id !in old(emprestimos) ==> livros == old(livros) && emprestimos == old(emprestimos)
      ensures id in old(emprestimos) ==>
        emprestimos == old(emprestimos) - {id} &&
        livros == SetDisponivel(old(livros), old(emprestimos)[id].livroId, true)
    {
      var emp := BuscarPorId(id);
      if emp.None? {
        return;
      }
      if Consistente() {
        DeletarKeepsConsistent(livros, emprestimos, id);
      }
      // DELETE FROM emprestimos WHERE id = ?
      emprestimos := emprestimos - {id};
      // UPDATE livros SET disponivel = 1 WHERE id = ?
      livros := SetDisponivel(livros, emp.value.livroId, true);
    }
  }

  /** Two `salvar` calls for the same book, run one after the other as the row
      lock on the book serializes them: at most one succeeds, and when the
      book was available the second sees it lent. */
  method SalvarMesmoLivro(dao: EmprestimoDAO, e1: Emprestimo, e2: Emprestimo)
    returns (r1: Result<Emprestimo>, r2: Result<Emprestimo>)
    requires dao.Valid()
    requires e1.livroId == e2.livroId
    modifies dao
    ensures dao.Valid()
    ensures !(r1.Ok? && r2.Ok?)
    ensures e1.livroId in old(dao.livros) && old(dao.livros)[e1.livroId] ==>
              r1.Ok? && r2 == Err(LivroEmprestado(e2.livroId)) &&
              dao.livros == old(dao.livros)[e1.livroId := false]
  {
    r1 := dao.Salvar(e1);
    r2 := dao.Salvar(e2);
  }

  /** The contract of Listar determines its result: two listings in strictly
      descending id order that hold the same loans are the same sequence. */
  lemma {:induction false} ListingIsUnique(a: seq<Emprestimo>, b: seq<Emprestimo>)
    requires StrictlyDescending(a) && StrictlyDescending(b)
    requires forall x :: x in a <==> x in b
    ensures a == b
  {
    NoMemberMeansEmpty(a);
    NoMemberMeansEmpty(b);
    if a != [] {
      assert a[0] in b;
      var j :| 0 <= j < |b| && b[j] == a[0];
      assert b[0] in a;
      var i :| 0 <= i < |a| && a[i] == b[0];
      // Each head has the largest id of its listing, so both heads share an id,
      // and a strictly descending listing has that id only at its head.
      assert a[0].id >= a[i].id == b[0].id;
      assert b[0].id >= b[j].id == a[0].id;
      assert j == 0;
      forall x
        ensures x in a[1..] <==> x in b[1..]
      {
        TailMembers(a, x);
        TailMembers(b, x);
      }
      ListingIsUnique(a[1..], b[1..]);
      assert a == [a[0]] + a[1..];
      assert b == [b[0]] + b[1..];
    }
  }

  lemma NoMemberMeansEmpty(s: seq<Emprestimo>)
    ensures (forall x :: x !in s) ==> s == []
  {
    if s != [] {
      assert s[0] in s;
    }
  }

  /** In a strictly descending listing the head does not occur again in the tail. */
  lemma TailMembers(s: seq<Emprestimo>, x: Emprestimo)
    requires StrictlyDescending(s) && s != []
    ensures x in s[1..] <==> x in s && x != s[0]
  {
  }
}
