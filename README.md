# minhasfinancas: entry validation, entry writes and the balance query

A Dafny model of the core of a small personal-finance bookkeeping service.
Users record financial entries ("lançamentos"). Each entry has a description,
month, year, value, type (income/expense), status (pending/confirmed/canceled)
and an owning user. The model covers three parts:

- the entry validator `validar`: a fixed chain of guards, where the first failing guard picks the error message;
- the service's write operations `salvar`, `atualizar`, `deletar` and `atualizarStatus`, which run on a repository that stores rows by id;
- the repository's balance query: a SQL `sum(l.valor)` over the entries of one user with a given type and status, grouped by user.

Files and modules:

- `wrappers.dfy` (`Wrappers`): `Option` stands for a Java null, `Result` and `Outcome` for a call that returns or throws.
- `java_lib.dfy` (`JavaLib`): the Java library operations the validator calls. These are `String.trim`, `Integer.toString` and `BigDecimal.compareTo`, stated on mathematical values and proved correct: trim characterised, digits round-trip, length of the decimal text.
- `model.dfy` (`Model`): the entity. `Registro` is the datatype of an entry's column values. `Lancamento` is the class of the caller's mutable entity object, whose status and id the core writes in place.
- `repository.dfy` (`Repository`): the class `LancamentoRepository` holds the table as `map<int, Registro>` plus the next identity value, with `Save`, `Delete` and `FindById`. `ObterSaldo` is the balance query as a recursive function over the table's rows, with SQL NULL semantics.
- `service.dfy` (`Service`): `Validar`, the rules it enforces stated as separate predicates, and the class `LancamentoServiceImpl`.

The validator is modelled as the code is written, including its quirks:

- the month upper bound is 22, not 12;
- the year check measures the length of `Integer.toString`, so -999..-100 pass as well as 1000..9999;
- the "Informe um Usuário." guard repeats the year guard, so it can never fire (`ValidarNeverReportsUsuario`);
- there is no check on the type or on the user.

The service's unit test expects a user message and a type message that the code cannot produce. The model follows the code: `ValidarOnTestSequence` states what the code actually answers on each of the test's inputs.

Null handling follows SQL. A NULL parameter or column never equals anything. `SUM` skips NULL values. When no selected row has a value, the answer is NULL: with no selected row, `group by u` yields no group. So `ObterSaldo` returns `None` rather than zero. The table is a bag of rows, so it is modelled as a sequence, and `ObterSaldoPermutation` shows that the order of that sequence does not matter.

## Model

| member | source | states |
|---|---|---|
| `JavaLib.Trim` | src/main/java/com/estudo/minhasfinancas/service/impl/LancamentoServiceImpl.java:65 | trim returns a contiguous part of s that, when not empty, starts and ends with a character above U+0020 |
| `JavaLib.TrimDropsOnlyTrimmable` | src/main/java/com/estudo/minhasfinancas/service/impl/LancamentoServiceImpl.java:65 | s is a run of characters at most U+0020, then trim(s), then another such run: trim drops only those characters |
| `JavaLib.TrimIsMiddle` | src/main/java/com/estudo/minhasfinancas/service/impl/LancamentoServiceImpl.java:65 | trim is determined: for any split of s into such a leading run, a middle part that is empty or has a character above U+0020 at both ends, and such a trailing run, trim(s) is the middle part |
| `JavaLib.TrimEmptyIff` | src/main/java/com/estudo/minhasfinancas/service/impl/LancamentoServiceImpl.java:65 | `s.trim().equals("")` holds iff every character of s is at most U+0020 (both directions) |
| `JavaLib.TrimKeepsTrimmedString` | src/main/java/com/estudo/minhasfinancas/service/impl/LancamentoServiceImpl.java:65 | trim leaves a string alone when neither end character is at most U+0020 |
| `JavaLib.TrimStart` | src/main/java/com/estudo/minhasfinancas/service/impl/LancamentoServiceImpl.java:65 | trim's leading part returns a suffix of s; every dropped character is at most U+0020 and the first kept one is not |
| `JavaLib.TrimEnd` | src/main/java/com/estudo/minhasfinancas/service/impl/LancamentoServiceImpl.java:65 | trim's trailing part returns a prefix of s; every dropped character is at most U+0020 and the last kept one is not |
| `JavaLib.Digits` | src/main/java/com/estudo/minhasfinancas/service/impl/LancamentoServiceImpl.java:74 | the decimal text of a magnitude is non-empty, all digits, with no leading zero: a text starting with '0' is exactly "0", the text of 0 |
| `JavaLib.DigitsRoundTrip` | src/main/java/com/estudo/minhasfinancas/service/impl/LancamentoServiceImpl.java:74 | reading back the decimal digits of n gives n |
| `JavaLib.DigitsLength` | src/main/java/com/estudo/minhasfinancas/service/impl/LancamentoServiceImpl.java:74 | the digits of n fit in k characters iff n < 10^k |
| `JavaLib.IntToString` | src/main/java/com/estudo/minhasfinancas/service/impl/LancamentoServiceImpl.java:74 | the decimal text starts with '-' exactly for a negative number and has at least one digit after the sign; every other character is a digit, and a first digit '0' occurs only in the text "0" of 0 |
| `JavaLib.IntToStringRoundTrip` | src/main/java/com/estudo/minhasfinancas/service/impl/LancamentoServiceImpl.java:74 | parsing `Integer.toString(n)` gives n back, for every integer |
| `JavaLib.IntToStringLength4` | src/main/java/com/estudo/minhasfinancas/service/impl/LancamentoServiceImpl.java:74 | `Integer.toString(n).length() == 4` iff n is in 1000..9999 or in -999..-100 |
| `JavaLib.CompareTo` | src/main/java/com/estudo/minhasfinancas/service/impl/LancamentoServiceImpl.java:82 | `BigDecimal.compareTo` answers -1, 0 or 1 by the values' order, ignoring scale |
| `Service.Validar` | src/main/java/com/estudo/minhasfinancas/service/impl/LancamentoServiceImpl.java:64-85 | for a non-null entity, validar only ever fails with a business-rule exception |
| `Service.ValidarDescricao` | src/main/java/com/estudo/minhasfinancas/service/impl/LancamentoServiceImpl.java:65-67 | validar fails with "informe uma Descrição válida." iff the description is null or blank, whatever the other fields hold (it is the first rule) |
| `Service.ValidarMes` | src/main/java/com/estudo/minhasfinancas/service/impl/LancamentoServiceImpl.java:70-72 | with a valid description, "Informe um Mês válido." comes iff the month is null, below 1 or above 22 |
| `Service.ValidarAno` | src/main/java/com/estudo/minhasfinancas/service/impl/LancamentoServiceImpl.java:74-76 | with description and month valid, "Informe um Ano válido." comes iff the year is null or outside 1000..9999 and -999..-100 |
| `Service.ValidarNeverReportsUsuario` | src/main/java/com/estudo/minhasfinancas/service/impl/LancamentoServiceImpl.java:74-80 | no entry makes validar fail with "Informe um Usuário." |
| `Service.ValidarValor` | src/main/java/com/estudo/minhasfinancas/service/impl/LancamentoServiceImpl.java:82-84 | with the earlier fields valid, "Informe um Valor válido." comes iff the value is null or not above zero |
| `Service.ValidarPass` | src/main/java/com/estudo/minhasfinancas/service/impl/LancamentoServiceImpl.java:64-85 | validar passes iff description, month, year and value meet their rules; nothing else is required |
| `Service.ValidarIgnoresTipoAndUsuario` | src/main/java/com/estudo/minhasfinancas/service/impl/LancamentoServiceImpl.java:64-85 | changing id, user, type or status never changes validar's verdict |
| `Service.ValidarAcceptsOddMonthsAndYears` | src/main/java/com/estudo/minhasfinancas/service/impl/LancamentoServiceImpl.java:70-76 | months 13..22 together with years -999..-100 are accepted |
| `Service.ValidarOnTestSequence` | src/test/java/com/estudo/minhasfinancas/service/LancamentoServiceTest.java:173-234 | the code's answer on each input of the test. The description, month and year messages come as the test expects. With year 2020 and no user, or a user without id, the value message comes where the test expects the user message. With value 1 the entry passes where the test expects a type message |
| `Service.LancamentoServiceImpl.constructor` | src/main/java/com/estudo/minhasfinancas/service/impl/LancamentoServiceImpl.java:22 | the service writes through the repository it is given |
| `Service.LancamentoServiceImpl.Salvar` | src/main/java/com/estudo/minhasfinancas/service/impl/LancamentoServiceImpl.java:26-30 | on a failed validation, the same error, with the repository and the entity untouched; otherwise the entity's status becomes PENDENTE, and the returned row is the entity with status PENDENTE under a non-null id, stored under that id, with no other row changed. An entity without id gets the fresh id, written into it; a stored id is kept and its row overwritten; an unknown id is stored as a new row under the fresh id; the id counter advances exactly when a fresh id is used |
| `Service.LancamentoServiceImpl.Atualizar` | src/main/java/com/estudo/minhasfinancas/service/impl/LancamentoServiceImpl.java:34-38 | a null id gives a NullPointerException before validation, with the repository untouched; a failed validation gives its error with the repository untouched; otherwise exactly that row is saved, under its own id when stored, and no other row changes; the id counter advances exactly when a fresh id is used |
| `Service.LancamentoServiceImpl.Deletar` | src/main/java/com/estudo/minhasfinancas/service/impl/LancamentoServiceImpl.java:42-45 | a null id gives a NullPointerException with the repository untouched; otherwise exactly the row with that id is removed, and findById then finds nothing |
| `Service.LancamentoServiceImpl.AtualizarStatus` | src/main/java/com/estudo/minhasfinancas/service/impl/LancamentoServiceImpl.java:58-61 | the entity's status is the new one afterwards, even when the following atualizar throws; nothing else in the entity changes; the call's result is that of a single atualizar on the updated entity; the id counter advances exactly when a fresh id is used |
| `Repository.LancamentoRepository.constructor` | src/main/java/com/estudo/minhasfinancas/model/repository/LancamentoRepository.java:13 | a new table is empty and keeps the id invariant |
| `Repository.LancamentoRepository.FindById` | src/main/java/com/estudo/minhasfinancas/model/repository/LancamentoRepository.java:13 | findById on a consistent table returns only a row that carries the id asked for |
| `Repository.LancamentoRepository.Save` | src/main/java/com/estudo/minhasfinancas/model/repository/LancamentoRepository.java:13 | save stores the entity's values under a non-null id and changes no other row. An entity without id gets a fresh id written into it; a stored id is overwritten in place, so findById reads back the new fields; an unknown id is inserted as a new row under a fresh id |
| `Repository.LancamentoRepository.Delete` | src/main/java/com/estudo/minhasfinancas/model/repository/LancamentoRepository.java:13 | delete removes exactly the row with the entity's id, and findById then finds nothing; an entity without id changes nothing |
| `Repository.RepositoryScenario` | src/test/java/com/estudo/minhasfinancas/model/repository/LancamentoRepositoryTest.java:38-84 | the repository test's scenarios follow from the contracts of Save, Delete and FindById: a saved entry gets an id and is found, overwriting reads back the new year, description and status, and a deleted entry is not found |
| `Repository.ObterSaldo` | src/main/java/com/estudo/minhasfinancas/model/repository/LancamentoRepository.java:15-19 | the balance is NULL (None), not zero, iff no row of that user, type and status has a value |
| `Repository.ObterSaldoIsSumOfSelected` | src/main/java/com/estudo/minhasfinancas/model/repository/LancamentoRepository.java:15-17 | the balance equals the sum of the values of the rows whose user id, type and status equal the parameters, and is NULL when there are none |
| `Repository.ObterSaldoConcat` | src/main/java/com/estudo/minhasfinancas/model/repository/LancamentoRepository.java:15-17 | the balance of two parts of the table is the SQL sum of the two partial balances |
| `Repository.ObterSaldoIgnoresUnselected` | src/main/java/com/estudo/minhasfinancas/model/repository/LancamentoRepository.java:16-17 | a row of another user, type or status, or with a NULL value, does not change the balance |
| `Repository.ObterSaldoAddsSelected` | src/main/java/com/estudo/minhasfinancas/model/repository/LancamentoRepository.java:15-17 | adding a selected row with value v raises the balance by exactly v (a NULL balance becomes v) |
| `Repository.ObterSaldoRemoveAt` | src/main/java/com/estudo/minhasfinancas/model/repository/LancamentoRepository.java:15-17 | removing one row removes exactly its share from the balance |
| `Repository.ObterSaldoPermutation` | src/main/java/com/estudo/minhasfinancas/model/repository/LancamentoRepository.java:15-19 | the balance depends on the bag of rows only, not on their order |
| `Repository.ObterSaldoNullParameter` | src/main/java/com/estudo/minhasfinancas/model/repository/LancamentoRepository.java:16-17 | a NULL user id, type or status parameter selects nothing, so the balance is NULL |

## Left out

- `buscar` (query by example, ignoring case, with substring matching on strings): its matching semantics live in Spring Data's `Example`/`ExampleMatcher`, which is not part of this model.
- `obterPorId`: the service test calls it, but the service implementation does not define it.
- The user service (registration, e-mail uniqueness, authentication): only its interface and tests exist; its implementation is not part of this model.
- Service.Validar, Service.LancamentoServiceImpl.Salvar, Service.LancamentoServiceImpl.Atualizar, Service.LancamentoServiceImpl.Deletar, Service.LancamentoServiceImpl.AtualizarStatus: the entity is never null, so the NullPointerException that a null entity raises in the source is not modelled.
- Transactions, Spring injection, the ORM and the database: a call is modelled as one atomic step. The source's `repository` field is never wired. The model passes the repository to the service's constructor instead.
- `dataCadastro` (the registration date) and every user field except the id: nothing in the core reads them.
- The Java sources of the two enumerations are not available here. `TipoLancamento` and `StatusLancamento` take the constructor names the tests use (`Receita`, `Pendente`, `Efetivado`, `Cancelado`); `Despesa` is assumed for the expense type.
- Repository.LancamentoRepository.Save: the entity's id generation is assumed to be database-generated, so merging an entity whose id is not stored inserts a new row under a fresh id. Save returns the stored row's values, not an object. That leaves out whether the caller gets back the same instance (persist) or a managed copy (merge).
- Repository.ObterSaldo: the query is stated over the table's rows given as a sequence, not over the repository's map. `ObterSaldoPermutation` shows that any listing of the rows gives the same answer.
- Java's 32-bit `Integer` and 64-bit `Long` are modelled as unbounded integers. No validation rule depends on the width: the year-length result holds for every integer, `Integer.MIN_VALUE` included. Overflow of the id sequence is not modelled.
- `BigDecimal` values are modelled as reals compared by value; scale is ignored, as `compareTo` ignores it.
