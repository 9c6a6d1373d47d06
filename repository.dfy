/** The entry repository: the JPA store the service writes through (save,
    delete, findById) and the balance query, a grouped SQL sum. */
module Repository {
  import opened Wrappers
  import opened Model

  /** The table of entries, keyed by id, with the next identity value. */
  class LancamentoRepository {
    var rows: map<int, Registro>
    var nextId: int

    /** Every stored row carries its own key as id, and every key is below the
        next identity value. */
    ghost predicate Valid()
      reads this
    {
      1 <= nextId &&
      forall k :: k in rows ==> k < nextId && rows[k].id == Some(k)
    }

    /** An empty table. */
    constructor ()
      ensures Valid() && rows == map[] && nextId == 1
    {
      rows, nextId := map[], 1;
    }

    /** findById: the row stored under that id, if any. */
    function FindById(id: int): (r: Option<Registro>)
      reads this
      ensures Valid() && r.Some? ==> r.value.id == Some(id)
    {
      if id in rows then Some(rows[id]) else None
    }

    /** save: an entity without id is persisted under a fresh id, which is
        written into the entity; an entity whose id is stored overwrites that
        row; an entity with an id that is not stored is merged as a new row
        under a fresh id, the entity itself keeping its id. The stored row is
        returned. */
    method Save(l: Lancamento) returns (saved: Registro)
      requires Valid()
      modifies this, l`id
      ensures Valid()
      ensures saved.id.Some?
      ensures saved == old(l.Snapshot()).(id := saved.id)
      ensures rows == old(rows)[saved.id.value := saved]
      ensures FindById(saved.id.value) == Some(saved)
      ensures old(l.id).None? ==>
        saved.id == Some(old(nextId)) && l.id == saved.id && nextId == old(nextId) + 1
      ensures old(l.id).Some? && old(l.id).value in old(rows) ==>
        saved.id == old(l.id) && l.id == old(l.id) && nextId == old(nextId)
      ensures old(l.id).Some? && old(l.id).value !in old(rows) ==>
        saved.id == Some(old(nextId)) && l.id == old(l.id) && nextId == old(nextId) + 1
    {
      if l.id.Some? && l.id.value in rows {
        saved := l.Snapshot();
      } else {
        if l.id.None? {
          l.id := Some(nextId);
          saved := l.Snapshot();
        } else {
          saved := l.Snapshot().(id := Some(nextId));
        }
        nextId := nextId + 1;
      }
      rows := rows[saved.id.value := saved];
    }

    /** delete: removes the row with the entity's id; an entity without id, or
        one whose row is gone, leaves the table as it is. */
    method Delete(l: Lancamento)
      requires Valid()
      modifies this`rows
      ensures Valid()
      ensures l.id.None? ==> rows == old(rows)
      ensures l.id.Some? ==> rows == old(rows) - {l.id.value} && FindById(l.id.value) == None
    {
      if l.id.Some? {
        rows := rows - {l.id.value};
      }
    }
  }

  /** The repository test's scenarios, as a client of the contracts above:
      a saved entry gets an id and can be found, an overwritten entry reads
      back with its new year, description and status, and a deleted entry is
      gone. */
  method RepositoryScenario()
  {
    var repo := new LancamentoRepository();
    var l := new Lancamento(Registro(None, Some("lancamento qualquer"), Some(1), Some(2019), None,
                                     Some(10.0), Some(Receita), Some(Pendente)));
    var saved := repo.Save(l);
    assert l.id.Some? && repo.FindById(l.id.value).Some?;
    var id := l.id.value;
    l.ano, l.descricao, l.status := Some(2018), Some("Teste Atualizar"), Some(Cancelado);
    saved := repo.Save(l);
    assert repo.FindById(id) == Some(l.Snapshot());
    assert repo.FindById(id).value.ano == Some(2018);
    assert repo.FindById(id).value.status == Some(Cancelado);
    repo.Delete(l);
    assert repo.FindById(id) == None;
  }

  // -----------------------------------------------------------------------
  // The balance query: sum(l.valor) over the entries joined with their user,
  // where u.id, l.tipo and l.status equal the parameters, grouped by user.

  /** SQL '=': false whenever either side is NULL. */
  predicate SqlEquals<T(==)>(a: Option<T>, b: Option<T>)
  {
    a.Some? && b.Some? && a.value == b.value
  }

  /** The inner join with the user and the WHERE clause. */
  predicate Corresponde(r: Registro, idUsuario: Option<int>,
                        tipo: Option<TipoLancamento>, status: Option<StatusLancamento>)
  {
    r.usuario.Some? && SqlEquals(r.usuario.value.id, idUsuario) &&
    SqlEquals(r.tipo, tipo) && SqlEquals(r.status, status)
  }

  /** A row adds to the sum when it is selected and its value is not NULL. */
  predicate Contribui(r: Registro, idUsuario: Option<int>,
                      tipo: Option<TipoLancamento>, status: Option<StatusLancamento>)
  {
    Corresponde(r, idUsuario, tipo, status) && r.valor.Some?
  }

  /** SQL SUM accumulation: NULL is ignored, and stays NULL only if both are. */
  function SomaSql(a: Option<real>, b: Option<real>): Option<real>
  {
    match (a, b)
    case (None, _) => b
    case (_, None) => a
    case (Some(x), Some(y)) => Some(x + y)
  }

  /** What one row adds to the sum. */
  function Parcela(r: Registro, idUsuario: Option<int>,
                   tipo: Option<TipoLancamento>, status: Option<StatusLancamento>): Option<real>
  {
    if Contribui(r, idUsuario, tipo, status) then r.valor else None
  }

  /** obterSaldoPorTipoLancamentoEUsuarioEStatus over the table's rows. The
      answer is NULL (None) when no selected row has a value: with no row
      selected, `group by u` yields no group at all. */
  function ObterSaldo(rows: seq<Registro>, idUsuario: Option<int>,
                      tipo: Option<TipoLancamento>, status: Option<StatusLancamento>): (r: Option<real>)
    ensures r.None? <==> forall i :: 0 <= i < |rows| ==> !Contribui(rows[i], idUsuario, tipo, status)
    decreases |rows|
  {
    if rows == [] then None
    else SomaSql(Parcela(rows[0], idUsuario, tipo, status), ObterSaldo(rows[1..], idUsuario, tipo, status))
  }

  // -----------------------------------------------------------------------
  // A reference definition: filter the values, then add them up.

  /** The non-NULL values of the selected rows, in table order. */
  function ValoresSelecionados(rows: seq<Registro>, idUsuario: Option<int>,
                               tipo: Option<TipoLancamento>, status: Option<StatusLancamento>): seq<real>
  {
    if rows == [] then []
    else
      (if Contribui(rows[0], idUsuario, tipo, status) then [rows[0].valor.value] else []) +
      ValoresSelecionados(rows[1..], idUsuario, tipo, status)
  }

  function Soma(xs: seq<real>): real
  {
    if xs == [] then 0.0 else xs[0] + Soma(xs[1..])
  }

  /** The balance is the sum of the selected values, and NULL exactly when
      there are none. */
  lemma {:induction false} ObterSaldoIsSumOfSelected(rows: seq<Registro>, idUsuario: Option<int>,
                                                    tipo: Option<TipoLancamento>, status: Option<StatusLancamento>)
    ensures ObterSaldo(rows, idUsuario, tipo, status) ==
      (var vs := ValoresSelecionados(rows, idUsuario, tipo, status);
       if vs == [] then None else Some(Soma(vs)))
    decreases |rows|
  {
    if rows != [] {
      ObterSaldoIsSumOfSelected(rows[1..], idUsuario, tipo, status);
      var vs := ValoresSelecionados(rows[1..], idUsuario, tipo, status);
      if Contribui(rows[0], idUsuario, tipo, status) {
        assert ([rows[0].valor.value] + vs)[1..] == vs;
      } else {
        assert [] + vs == vs;
      }
    }
  }

  /** The sum over two parts of the table combines the two partial sums. */
  lemma {:induction false} ObterSaldoConcat(a: seq<Registro>, b: seq<Registro>, idUsuario: Option<int>,
                                           tipo: Option<TipoLancamento>, status: Option<StatusLancamento>)
    ensures ObterSaldo(a + b, idUsuario, tipo, status) ==
      SomaSql(ObterSaldo(a, idUsuario, tipo, status), ObterSaldo(b, idUsuario, tipo, status))
    decreases |a|
  {
    if a == [] {
      assert a + b == b;
    } else {
      assert (a + b)[1..] == a[1..] + b;
      ObterSaldoConcat(a[1..], b, idUsuario, tipo, status);
    }
  }

  /** A row of another user, type or status (or with a NULL value) does not
      change the balance, wherever it stands in the table. */
  lemma ObterSaldoIgnoresUnselected(a: seq<Registro>, x: Registro, b: seq<Registro>, idUsuario: Option<int>,
                                    tipo: Option<TipoLancamento>, status: Option<StatusLancamento>)
    requires !Contribui(x, idUsuario, tipo, status)
    ensures ObterSaldo(a + [x] + b, idUsuario, tipo, status) == ObterSaldo(a + b, idUsuario, tipo, status)
  {
    ObterSaldoConcat(a + [x], b, idUsuario, tipo, status);
    ObterSaldoConcat(a, [x], idUsuario, tipo, status);
    ObterSaldoConcat(a, b, idUsuario, tipo, status);
    assert ObterSaldo([x], idUsuario, tipo, status) == None by {
      assert [x][1..] == [];
    }
  }

  /** A selected row with value v raises the balance by exactly v (a NULL
      balance becomes v). */
  lemma ObterSaldoAddsSelected(rows: seq<Registro>, x: Registro, idUsuario: Option<int>,
                               tipo: Option<TipoLancamento>, status: Option<StatusLancamento>)
    requires Contribui(x, idUsuario, tipo, status)
    ensures ObterSaldo(rows + [x], idUsuario, tipo, status) ==
      Some(x.valor.value + match ObterSaldo(rows, idUsuario, tipo, status) case None => 0.0 case Some(s) => s)
  {
    ObterSaldoConcat(rows, [x], idUsuario, tipo, status);
    assert ObterSaldo([x], idUsuario, tipo, status) == x.valor by {
      assert [x][1..] == [];
    }
  }

  lemma SomaSqlSwap(p: Option<real>, q: Option<real>, r: Option<real>)
    ensures SomaSql(SomaSql(p, q), r) == SomaSql(q, SomaSql(p, r))
  {
  }

  /** Taking one row out of the table takes its share out of the balance. */
  lemma ObterSaldoRemoveAt(b: seq<Registro>, j: nat, idUsuario: Option<int>,
                           tipo: Option<TipoLancamento>, status: Option<StatusLancamento>)
    requires j < |b|
    ensures ObterSaldo(b, idUsuario, tipo, status) ==
      SomaSql(Parcela(b[j], idUsuario, tipo, status), ObterSaldo(b[..j] + b[j + 1..], idUsuario, tipo, status))
  {
    var left, x, right := b[..j], [b[j]], b[j + 1..];
    assert b == left + x + right;
    ObterSaldoConcat(left + x, right, idUsuario, tipo, status);
    ObterSaldoConcat(left, x, idUsuario, tipo, status);
    ObterSaldoConcat(left, right, idUsuario, tipo, status);
    assert ObterSaldo(x, idUsuario, tipo, status) == Parcela(b[j], idUsuario, tipo, status) by {
      assert x[1..] == [];
    }
    SomaSqlSwap(ObterSaldo(left, idUsuario, tipo, status), Parcela(b[j], idUsuario, tipo, status),
                ObterSaldo(right, idUsuario, tipo, status));
  }

  lemma MultisetRemoveFirst<T>(a: seq<T>, b: seq<T>, j: nat)
    requires multiset(a) == multiset(b) && a != [] && j < |b| && b[j] == a[0]
    ensures multiset(a[1..]) == multiset(b[..j] + b[j + 1..])
  {
    assert a == [a[0]] + a[1..];
    assert b == b[..j] + [b[j]] + b[j + 1..];
    calc {
      multiset(a[1..]);
      multiset(a) - multiset{a[0]};
      multiset(b) - multiset{b[j]};
      multiset(b[..j]) + multiset(b[j + 1..]);
      multiset(b[..j] + b[j + 1..]);
    }
  }

  /** A table is an unordered bag of rows: any reordering gives the same
      balance. */
  lemma {:induction false} ObterSaldoPermutation(a: seq<Registro>, b: seq<Registro>, idUsuario: Option<int>,
                                                tipo: Option<TipoLancamento>, status: Option<StatusLancamento>)
    requires multiset(a) == multiset(b)
    ensures ObterSaldo(a, idUsuario, tipo, status) == ObterSaldo(b, idUsuario, tipo, status)
    decreases |a|
  {
    if a == [] {
      assert |b| == |multiset(b)| == 0;
    } else {
      assert a[0] in multiset(b);
      var j :| 0 <= j < |b| && b[j] == a[0];
      MultisetRemoveFirst(a, b, j);
      ObterSaldoPermutation(a[1..], b[..j] + b[j + 1..], idUsuario, tipo, status);
      ObterSaldoRemoveAt(b, j, idUsuario, tipo, status);
    }
  }

  /** A NULL user id, type or status selects nothing, so the balance is NULL. */
  lemma ObterSaldoNullParameter(rows: seq<Registro>, idUsuario: Option<int>,
                                tipo: Option<TipoLancamento>, status: Option<StatusLancamento>)
    requires idUsuario.None? || tipo.None? || status.None?
    ensures ObterSaldo(rows, idUsuario, tipo, status).None?
  {
  }
}
