/** The loan record (`Emprestimo`) and the decoder that turns one row of the
    `emprestimos` table into it. */
module Emprestimos {

  datatype Option<+T> = None | Some(value: T)

  /** A calendar date without time of day. The model never computes with dates,
      so a date is an opaque value; only equality matters. */
  datatype Date = Date(epochDay: int)

  /** One borrowing event: which book (`livroId`) is lent to which user
      (`usuarioId`), from `dataEmprestimo` until `dataDevolucao`. `id` is the
      surrogate key the store assigns on insertion. */
  datatype Emprestimo = Emprestimo(
    id: int,
    livroId: int,
    usuarioId: int,
    dataEmprestimo: Date,
    dataDevolucao: Date)

  /** A column value as the result set hands it out: an INT or a DATE column. */
  datatype Column = IntColumn(i: int) | DateColumn(d: Date)

  /** One row of a result set, read by column name. */
  type Row = map<string, Column>

  const ColId := "id"
  const ColLivro := "id_livro"
  const ColUsuario := "id_usuario"
  const ColDataEmprestimo := "data_emprestimo"
  const ColDataDevolucao := "data_devolucao"

  predicate IsInt(row: Row, name: string) {
    name in row && row[name].IntColumn?
  }

  predicate IsDate(row: Row, name: string) {
    name in row && row[name].DateColumn?
  }

  /** A row the decoder can read: the five columns of `emprestimos`, each of
      the SQL type the schema gives it. */
  predicate WellFormed(row: Row) {
    IsInt(row, ColId) && IsInt(row, ColLivro) && IsInt(row, ColUsuario) &&
    IsDate(row, ColDataEmprestimo) && IsDate(row, ColDataDevolucao)
  }

  /** The helper `map`: read the five columns by name into a loan. A missing
      column (a storage fault in the source) yields None. */
  function DecodeRow(row: Row): (r: Option<Emprestimo>)
    ensures r.Some? <==> WellFormed(row)
    ensures r.Some? ==>
      row[ColId] == IntColumn(r.value.id) &&
      row[ColLivro] == IntColumn(r.value.livroId) &&
      row[ColUsuario] == IntColumn(r.value.usuarioId) &&
      row[ColDataEmprestimo] == DateColumn(r.value.dataEmprestimo) &&
      row[ColDataDevolucao] == DateColumn(r.value.dataDevolucao)
  {
    if WellFormed(row) then
      Some(Emprestimo(row[ColId].i, row[ColLivro].i, row[ColUsuario].i,
                      row[ColDataEmprestimo].d, row[ColDataDevolucao].d))
    else
      None
  }

  /** The row the store holds for a loan: the inverse of DecodeRow. */
  function EncodeRow(e: Emprestimo): (row: Row)
    ensures WellFormed(row) && |row| == 5
  {
    map[ColId := IntColumn(e.id),
        ColLivro := IntColumn(e.livroId),
        ColUsuario := IntColumn(e.usuarioId),
        ColDataEmprestimo := DateColumn(e.dataEmprestimo),
        ColDataDevolucao := DateColumn(e.dataDevolucao)]
  }

  /** Decoding the row of a stored loan gives that loan back unchanged. */
  lemma DecodeEncode(e: Emprestimo)
    ensures DecodeRow(EncodeRow(e)) == Some(e)
  {
  }

  /** Whatever DecodeRow accepts, re-encoding its result reproduces exactly the
      five columns it read; other columns of the row play no part. */
  lemma EncodeDecode(row: Row)
    requires DecodeRow(row).Some?
    ensures forall name :: name in EncodeRow(DecodeRow(row).value) ==>
              name in row && row[name] == EncodeRow(DecodeRow(row).value)[name]
  {
  }
}
