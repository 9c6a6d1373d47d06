/** The entity of the core, a financial entry ("lançamento"), with its
    enumerations and its owner. Every Java field may be null, so every column
    is an Option. */
module Model {
  import opened Wrappers

  /** The entry's kind: income or expense. */
  datatype TipoLancamento = Receita | Despesa

  /** The entry's lifecycle tag; any status may follow any other. */
  datatype StatusLancamento = Pendente | Efetivado | Cancelado

  /** The owning user, as far as the core looks at it: its id. */
  datatype Usuario = Usuario(id: Option<int>)

  /** The column values of one entry: what validation reads, what the table
      stores as a row and what the balance query sums. */
  datatype Registro = Registro(
    id: Option<int>,
    descricao: Option<string>,
    mes: Option<int>,
    ano: Option<int>,
    usuario: Option<Usuario>,
    valor: Option<real>,
    tipo: Option<TipoLancamento>,
    status: Option<StatusLancamento>)

  /** The caller's entity object; the service writes its status and the
      repository writes its id in place. */
  class Lancamento {
    var id: Option<int>
    var descricao: Option<string>
    var mes: Option<int>
    var ano: Option<int>
    var usuario: Option<Usuario>
    var valor: Option<real>
    var tipo: Option<TipoLancamento>
    var status: Option<StatusLancamento>

    /** The entity's current column values. */
    function Snapshot(): Registro
      reads this
    {
      Registro(id, descricao, mes, ano, usuario, valor, tipo, status)
    }

    /** An entity built with the given column values. */
    constructor (r: Registro)
      ensures Snapshot() == r
    {
      id, descricao, mes, ano := r.id, r.descricao, r.mes, r.ano;
      usuario, valor, tipo, status := r.usuario, r.valor, r.tipo, r.status;
    }
  }
}
