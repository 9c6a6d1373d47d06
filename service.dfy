/** LancamentoServiceImpl: the entry validator and the write operations that
    run it before going through the repository. */
module Service {
  import opened Wrappers
  import opened JavaLib
  import opened Model
  import opened Repository

  /** The two ways a service call fails: a business-rule exception carrying
      its message, and the NullPointerException of Objects.requireNonNull. */
  datatype Falha = RegraNegocio(mensagem: string) | NullPointer

  const MsgDescricao: string := "informe uma Descrição válida."
  const MsgMes: string := "Informe um Mês válido."
  const MsgAno: string := "Informe um Ano válido."
  const MsgUsuario: string := "Informe um Usuário."
  const MsgValor: string := "Informe um Valor válido."

  /** validar, as written: a fixed chain of guards, the first failing one
      deciding the message. The month bound is 22, the fourth guard repeats
      the year guard, and neither the type nor the user is looked at. */
  function Validar(l: Registro): (r: Outcome<Falha>)
    ensures r.Fail? ==> r.error.RegraNegocio?
  {
    if l.descricao.None? || Trim(l.descricao.value) == "" then
      Fail(RegraNegocio(MsgDescricao))
    else if l.mes.None? || l.mes.value < 1 || l.mes.value > 22 then
      Fail(RegraNegocio(MsgMes))
    else if l.ano.None? || |IntToString(l.ano.value)| != 4 then
      Fail(RegraNegocio(MsgAno))
    else if l.ano.None? || |IntToString(l.ano.value)| != 4 then
      Fail(RegraNegocio(MsgUsuario))
    else if l.valor.None? || CompareTo(l.valor.value, 0.0) < 1 then
      Fail(RegraNegocio(MsgValor))
    else
      Pass
  }

  // -----------------------------------------------------------------------
  // The rules validar enforces, stated on their own.

  /** A description with at least one character above U+0020. */
  predicate DescricaoValida(l: Registro)
  {
    l.descricao.Some? && exists i :: 0 <= i < |l.descricao.value| && !IsTrimmable(l.descricao.value[i])
  }

  /** A month in 1..22. */
  predicate MesValido(l: Registro)
  {
    l.mes.Some? && 1 <= l.mes.value <= 22
  }

  /** A year whose decimal text, sign included, has four characters. */
  predicate AnoValido(l: Registro)
  {
    l.ano.Some? && (1000 <= l.ano.value <= 9999 || -999 <= l.ano.value <= -100)
  }

  /** A value strictly above zero. */
  predicate ValorValido(l: Registro)
  {
    l.valor.Some? && l.valor.value > 0.0
  }

  /** The description rule runs first: validar reports the description
      message exactly when the description is null or blank, whatever the
      other fields hold. */
  lemma ValidarDescricao(l: Registro)
    ensures Validar(l) == Fail(RegraNegocio(MsgDescricao)) <==> !DescricaoValida(l)
  {
  }

  /** With a valid description, the month message comes exactly for a null
      month or one outside 1..22. */
  lemma ValidarMes(l: Registro)
    requires DescricaoValida(l)
    ensures Validar(l) == Fail(RegraNegocio(MsgMes)) <==> !MesValido(l)
  {
  }

  /** With description and month valid, the year message comes exactly when the
      year is null or lies outside 1000..9999 and -999..-100. */
  lemma ValidarAno(l: Registro)
    requires DescricaoValida(l) && MesValido(l)
    ensures Validar(l) == Fail(RegraNegocio(MsgAno)) <==> !AnoValido(l)
  {
    assert Trim(l.descricao.value) != "" by {
      TrimEmptyIff(l.descricao.value);
    }
    if l.ano.Some? {
      IntToStringLength4(l.ano.value);
    }
    if AnoValido(l) {
      // the year guard and its duplicate both let the entry through
      assert |IntToString(l.ano.value)| == 4;
      assert |MsgAno| != |MsgValor|;
    }
  }

  /** With the earlier fields valid, the value message comes exactly for a null
      value or one that is not above zero. */
  lemma ValidarValor(l: Registro)
    requires DescricaoValida(l) && MesValido(l) && AnoValido(l)
    ensures Validar(l) == Fail(RegraNegocio(MsgValor)) <==> !ValorValido(l)
  {
    assert Trim(l.descricao.value) != "" by {
      TrimEmptyIff(l.descricao.value);
    }
    IntToStringLength4(l.ano.value);
  }

  /** validar accepts exactly the entries that meet the four rules; type,
      user, status and id play no part. */
  lemma ValidarPass(l: Registro)
    ensures Validar(l) == Pass <==>
      DescricaoValida(l) && MesValido(l) && AnoValido(l) && ValorValido(l)
  {
    if DescricaoValida(l) && MesValido(l) {
      ValidarAno(l);
      if AnoValido(l) {
        ValidarValor(l);
      }
    } else {
      ValidarDescricao(l);
      if DescricaoValida(l) {
        ValidarMes(l);
      }
    }
  }

  /** The "Informe um Usuário." guard repeats the year guard, which has
      already thrown, so validar never reports it. */
  lemma ValidarNeverReportsUsuario(l: Registro)
    ensures Validar(l) != Fail(RegraNegocio(MsgUsuario))
  {
  }

  /** Changing the id, user, type or status never changes validar's verdict. */
  lemma ValidarIgnoresTipoAndUsuario(l: Registro, id: Option<int>, usuario: Option<Usuario>,
                                     tipo: Option<TipoLancamento>, status: Option<StatusLancamento>)
    ensures Validar(l.(id := id, usuario := usuario, tipo := tipo, status := status)) == Validar(l)
  {
  }

  /** Months 13 to 22 and negative three-digit years pass validation. */
  lemma ValidarAcceptsOddMonthsAndYears(l: Registro)
    requires DescricaoValida(l) && ValorValido(l)
    requires l.mes.Some? && 13 <= l.mes.value <= 22
    requires l.ano.Some? && -999 <= l.ano.value <= -100
    ensures Validar(l) == Pass
  {
    ValidarPass(l);
  }

  /** validar on the sequence of field values that the service test sets one
      after another: the code reports the value message where the test waits
      for the user message, and accepts the entry where the test waits for a
      type message. */
  lemma ValidarOnTestSequence()
    ensures var e := Registro(None, None, None, None, None, None, None, None);
      && Validar(e) == Fail(RegraNegocio(MsgDescricao))
      && Validar(e.(descricao := Some(""))) == Fail(RegraNegocio(MsgDescricao))
      && Validar(e.(descricao := Some("Salario"))) == Fail(RegraNegocio(MsgMes))
      && Validar(e.(descricao := Some("Salario"), ano := Some(0))) == Fail(RegraNegocio(MsgMes))
      && Validar(e.(descricao := Some("Salario"), ano := Some(13))) == Fail(RegraNegocio(MsgMes))
      && Validar(e.(descricao := Some("Salario"), mes := Some(1), ano := Some(13))) == Fail(RegraNegocio(MsgAno))
      && Validar(e.(descricao := Some("Salario"), mes := Some(1), ano := Some(202))) == Fail(RegraNegocio(MsgAno))
      && Validar(e.(descricao := Some("Salario"), mes := Some(1), ano := Some(2020))) == Fail(RegraNegocio(MsgValor))
      && Validar(e.(descricao := Some("Salario"), mes := Some(1), ano := Some(2020),
                    usuario := Some(Usuario(None)))) == Fail(RegraNegocio(MsgValor))
      && Validar(e.(descricao := Some("Salario"), mes := Some(1), ano := Some(2020),
                    usuario := Some(Usuario(Some(1))))) == Fail(RegraNegocio(MsgValor))
      && Validar(e.(descricao := Some("Salario"), mes := Some(1), ano := Some(2020),
                    usuario := Some(Usuario(Some(1))), valor := Some(0.0))) == Fail(RegraNegocio(MsgValor))
      && Validar(e.(descricao := Some("Salario"), mes := Some(1), ano := Some(2020),
                    usuario := Some(Usuario(Some(1))), valor := Some(1.0))) == Pass
  {
  }

  // -----------------------------------------------------------------------
  // The service

  /** The service object; the repository stands for the injected collaborator. */
  class LancamentoServiceImpl {
    const repository: LancamentoRepository

    constructor (repository: LancamentoRepository)
      ensures this.repository == repository
    {
      this.repository := repository;
    }

    /** salvar: validate, force the status to PENDENTE, then save. A failed
        validation throws before anything is touched. */
    method Salvar(l: Lancamento) returns (r: Result<Registro, Falha>)
      requires repository.Valid()
      modifies repository, l`status, l`id
      ensures repository.Valid()
      ensures Validar(old(l.Snapshot())).Fail? ==>
        r == Err(Validar(old(l.Snapshot())).error) && unchanged(repository) && unchanged(l)
      ensures Validar(old(l.Snapshot())).Pass? ==>
        && r.Ok? && r.value.id.Some?
        && l.status == Some(Pendente)
        && r.value == old(l.Snapshot()).(status := Some(Pendente), id := r.value.id)
        && repository.rows == old(repository.rows)[r.value.id.value := r.value]
        && repository.FindById(r.value.id.value) == Some(r.value)
        && (old(l.id).None? ==>
              r.value.id == Some(old(repository.nextId)) && l.id == r.value.id &&
              repository.nextId == old(repository.nextId) + 1)
        && (old(l.id).Some? && old(l.id).value in old(repository.rows) ==>
              r.value.id == old(l.id) && l.id == old(l.id) &&
              repository.nextId == old(repository.nextId))
        && (old(l.id).Some? && old(l.id).value !in old(repository.rows) ==>
              r.value.id == Some(old(repository.nextId)) && l.id == old(l.id) &&
              repository.nextId == old(repository.nextId) + 1)
    {
      var v := Validar(l.Snapshot());
      if v.Fail? {
        return Err(v.error);
      }
      l.status := Some(Pendente);
      var saved := repository.Save(l);
      r := Ok(saved);
    }

    /** atualizar: the id must be present (checked before validation), then
        validate and save. The entity itself is left as it is. */
    method Atualizar(l: Lancamento) returns (r: Result<Registro, Falha>)
      requires repository.Valid()
      modifies repository, l`id
      ensures repository.Valid()
      ensures l.id == old(l.id)
      ensures l.id.None? ==> r == Err(NullPointer) && unchanged(repository)
      ensures l.id.Some? && Validar(l.Snapshot()).Fail? ==>
        r == Err(Validar(l.Snapshot()).error) && unchanged(repository)
      ensures l.id.Some? && Validar(l.Snapshot()).Pass? ==>
        && r.Ok? && r.value.id.Some?
        && r.value == l.Snapshot().(id := r.value.id)
        && repository.rows == old(repository.rows)[r.value.id.value := r.value]
        && (l.id.value in old(repository.rows) ==>
              r.value.id == l.id && repository.nextId == old(repository.nextId))
        && (l.id.value !in old(repository.rows) ==>
              r.value.id == Some(old(repository.nextId)) && repository.nextId == old(repository.nextId) + 1)
    {
      if l.id.None? {
        return Err(NullPointer);
      }
      var v := Validar(l.Snapshot());
      if v.Fail? {
        return Err(v.error);
      }
      var saved := repository.Save(l);
      r := Ok(saved);
    }

    /** deletar: the id must be present, then the row with that id goes and
        no other row changes. */
    method Deletar(l: Lancamento) returns (r: Outcome<Falha>)
      requires repository.Valid()
      modifies repository
      ensures repository.Valid()
      ensures l.id.None? ==> r == Fail(NullPointer) && unchanged(repository)
      ensures l.id.Some? ==>
        && r == Pass
        && repository.rows == old(repository.rows) - {l.id.value}
        && repository.FindById(l.id.value) == None
        && repository.nextId == old(repository.nextId)
    {
      if l.id.None? {
        return Fail(NullPointer);
      }
      repository.Delete(l);
      r := Pass;
    }

    /** atualizarStatus: write the status into the entity, then run one
        atualizar; the new status stays in the entity even when atualizar
        throws, and its exception is the call's. */
    method AtualizarStatus(l: Lancamento, status: Option<StatusLancamento>) returns (r: Outcome<Falha>)
      requires repository.Valid()
      modifies repository, l`status, l`id
      ensures repository.Valid()
      ensures l.status == status
      ensures l.Snapshot() == old(l.Snapshot()).(status := status)
      ensures l.id.None? ==> r == Fail(NullPointer) && unchanged(repository)
      ensures l.id.Some? && Validar(l.Snapshot()).Fail? ==>
        r == Fail(Validar(l.Snapshot()).error) && unchanged(repository)
      ensures l.id.Some? && Validar(l.Snapshot()).Pass? ==>
        && r == Pass
        && (l.id.value in old(repository.rows) ==>
              repository.rows == old(repository.rows)[l.id.value := l.Snapshot()] &&
              repository.nextId == old(repository.nextId))
        && (l.id.value !in old(repository.rows) ==>
              var k := old(repository.nextId);
              repository.rows == old(repository.rows)[k := l.Snapshot().(id := Some(k))] &&
              repository.nextId == k + 1)
    {
      l.status := status;
      var u := Atualizar(l);
      if u.Err? {
        return Fail(u.error);
      }
      r := Pass;
    }
  }
}
