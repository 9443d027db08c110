# Employee performance service, modelled in Dafny

This project models the service layer of a Spring application that manages
employees (*colaboradores*), their behavioural evaluation (*avaliação
comportamental*, one per employee, four scores) and their deliveries (*entregas*,
at most four per employee, one score each), and computes an employee's final
performance from them.

- `Common`: the Option and Result types. Failures are NotFound (ResourceNotFoundException),
  Business (NegocioException), Generic (a plain RuntimeException) and BadUuid (the
  IllegalArgumentException of `UUID.fromString`). Each carries a reason, one per message
  the services throw.
- `Uuids`: the matricula as 32 hexadecimal digits, its parser and its lower-case printer.
- `Decimal`: scores as fixed-point numbers in hundredths (4.25 is 425), the 1.00..5.00
  range of the request objects, `BigDecimal.divide(.., 2, HALF_UP)` as `RoundHalfUp`,
  sums and means.
- `Records`: stored records, response shapes and partial-update requests.
- `Repository`: the database behind the three repositories, as the class `Store`
  whose methods are the saves and deletes the services issue, including the cascades
  and orphan removal of the entity mappings. `Store.Valid` is the invariant every
  method keeps: every delivery and evaluation belongs to a stored employee, every score is
  within 1.00..5.00, each employee's delivery list holds exactly its deliveries, and no
  employee has more than four deliveries.
- `EmployeeService`, `DeliveryService`, `EvaluationService`: the current services.
- `LegacyEmployeeService`: what the earlier `business/services` package does differently.
  Its delivery service and the rest of its employee service are the same code as the
  current ones, so the same members model them.
- `Entities`, `LegacyEntities`: the two employee entity classes with the helpers that keep
  both ends of their associations in step.

The final performance needs an evaluation and at least two deliveries. The evaluation
mean is the sum of the four scores divided by 4, and the delivery mean is the sum of the
delivery scores divided by their count. Each mean is rounded half-up to two decimals, and
the final score is the exact sum of the two means.

## Model

| member | source | states |
|---|---|---|
| Uuids.HexDigits | src/main/java/com/example/demo/colaborador/service/ColaboradorService.java:137 | a text converts to digits exactly when every character is an ASCII hexadecimal digit, each digit being that character's value |
| Uuids.ToNibblesOfValue | src/main/java/com/example/demo/colaborador/service/ColaboradorService.java:137 | masking the number a digit string denotes to w digits keeps the last w digits, with zeros in front of a shorter string |
| Uuids.DashSearchFinds | src/main/java/com/example/demo/colaborador/service/ColaboradorService.java:137 | when the fourth dash search hits and the fifth misses, the four hits are exactly the dashes of the text |
| Uuids.DashSearchOf | src/main/java/com/example/demo/colaborador/service/ColaboradorService.java:137 | a text with exactly four dashes makes the dash search return their positions and then a miss |
| Uuids.GroupField | src/main/java/com/example/demo/colaborador/service/ColaboradorService.java:137 | a group parses as a long exactly when it is an optional plus sign and one or more hex digits whose value fits a signed 64-bit long, and its masked value is its last digits |
| Uuids.AssembleMatchesReference | src/main/java/com/example/demo/colaborador/service/ColaboradorService.java:137 | the five groups assemble exactly when each one parses, into the last 8, 4, 4, 4 and 12 digits of the groups |
| Uuids.FromString1 | src/main/java/com/example/demo/colaborador/service/ColaboradorService.java:137 | the lenient parser only accepts texts of at most 36 characters, and its result has 32 digits |
| Uuids.FromString1NeedsFourDashes | src/main/java/com/example/demo/colaborador/service/ColaboradorService.java:137 | the lenient parser refuses every text without exactly four dashes |
| Uuids.FromString1WithDashes | src/main/java/com/example/demo/colaborador/service/ColaboradorService.java:137 | given the four dashes of a text, the lenient parser accepts it if and only if it has at most 36 characters and every group parses, and returns the UUID the groups stand for |
| Uuids.ParseUuid | src/main/java/com/example/demo/colaborador/service/ColaboradorService.java:137 | a parsed matricula has 32 hex digits and comes from a text of at most 36 characters |
| Uuids.ShortcutAgrees | src/main/java/com/example/demo/colaborador/service/ColaboradorService.java:137 | reading the canonical 36-character layout directly gives what the lenient parser gives, for every text |
| Uuids.CanonicalParses | src/main/java/com/example/demo/colaborador/service/ColaboradorService.java:137 | every 36-character text with dashes at 8, 13, 18 and 23 and an ASCII hex digit everywhere else parses, to those 32 digits in order |
| Uuids.ParseUuidNeedsFourDashes | src/main/java/com/example/demo/colaborador/service/ColaboradorService.java:137 | UUID.fromString refuses every text without exactly four dashes |
| Uuids.ParseUuidWithDashes | src/main/java/com/example/demo/colaborador/service/ColaboradorService.java:137 | given the four dashes of a text, UUID.fromString accepts it if and only if it has at most 36 characters and every group is an optional plus sign and 1 or more hex digits below 2^63; the UUID holds the last 8, 4, 4, 4 and 12 digits of the groups, zero-padded |
| Uuids.ShortFormAccepted | src/main/java/com/example/demo/colaborador/service/ColaboradorService.java:137 | a text far from the canonical layout, five single decimal digits between four dashes such as 1-2-3-4-5, is accepted |
| Uuids.FormatUuid | src/main/java/com/example/demo/colaborador/service/ColaboradorService.java:51 | the printed matricula is 36 characters long with the four dashes in place |
| Uuids.ParseFormatRoundTrip | src/main/java/com/example/demo/colaborador/service/ColaboradorService.java:41-64 | a printed matricula parses back to the same matricula, so the one returned on registration finds the employee |
| Decimal.RoundHalfUp | src/main/java/com/example/demo/colaborador/service/ColaboradorService.java:174 | the result is within half a unit of num/den, with ties rounded up |
| Decimal.HalfUpRoundingUnique | src/main/java/com/example/demo/colaborador/service/ColaboradorService.java:174 | at most one value satisfies the half-up rounding relation, so the relation pins down the mean |
| Decimal.RoundHalfUpExact | src/main/java/com/example/demo/colaborador/service/ColaboradorService.java:174 | dividing an exact multiple needs no rounding |
| Decimal.SumWithinRange | src/main/java/com/example/demo/colaborador/service/ColaboradorService.java:178-182 | the sum of n scores within 1.00..5.00 lies between 1.00·n and 5.00·n |
| Decimal.MeanWithinRange | src/main/java/com/example/demo/colaborador/service/ColaboradorService.java:184 | a rounded mean of n scores within 1.00..5.00 is itself within 1.00..5.00 |
| Decimal.Mean | src/main/java/com/example/demo/colaborador/service/ColaboradorService.java:184 | the delivery mean is the half-up rounding of sum/count and stays within 1.00..5.00 |
| Decimal.MeanOfEqualScores | src/main/java/com/example/demo/colaborador/service/ColaboradorService.java:184 | deliveries that all have the same score have that score as their mean |
| Records.EvaluationMean | src/main/java/com/example/demo/colaborador/service/ColaboradorService.java:168-174 | the evaluation mean is the half-up rounding of the total over 4 and stays within 1.00..5.00 |
| Repository.Store.constructor | src/main/java/com/example/demo/colaborador/model/ColaboradorEntity.java:31-35 | an empty database establishes the invariant those mappings describe: no evaluation or delivery without its employee, and every delivery list exact |
| Repository.Store.DeliveriesOf | src/main/java/com/example/demo/colaborador/service/ColaboradorService.java:157 | an employee's delivery list resolves, in order, to deliveries that it owns |
| Repository.Store.AddEmployee | src/main/java/com/example/demo/colaborador/service/ColaboradorService.java:44-49 | saving a new employee adds it with no evaluation and no deliveries, appended to the listing order |
| Repository.Store.SaveEmployee | src/main/java/com/example/demo/colaborador/service/ColaboradorService.java:127 | saving an employee replaces its record and keeps the invariant |
| Repository.Store.RemoveEmployee | src/main/java/com/example/demo/colaborador/model/ColaboradorEntity.java:31-35 | deleting an employee also deletes its evaluation and all its deliveries, and nothing else |
| Repository.DropOwnedBy | src/main/java/com/example/demo/colaborador/model/ColaboradorEntity.java:34 | what the cascade leaves: exactly the deliveries of other employees, unchanged |
| Repository.RemoveEmployeeKeepsConsistent | src/main/java/com/example/demo/colaborador/model/ColaboradorEntity.java:31-35 | the cascade leaves no orphan evaluation or delivery |
| Repository.Store.InsertDelivery | src/main/java/com/example/demo/colaborador/entrega/service/EntregaService.java:56-61 | a new delivery gets a fresh id, is owned by the employee and is appended to its list |
| Repository.InsertDeliveryKeepsConsistent | src/main/java/com/example/demo/colaborador/entrega/service/EntregaService.java:50-61 | storing a delivery for an employee below the limit of 4 keeps every delivery list exact and within the limit |
| Repository.SaveDeliveryKeepsConsistent | src/main/java/com/example/demo/colaborador/entrega/service/EntregaService.java:183-193 | replacing a delivery's description or score keeps every delivery list exact |
| Repository.Store.SaveDelivery | src/main/java/com/example/demo/colaborador/entrega/service/EntregaService.java:193 | saving a delivery replaces its description and score and keeps its owner |
| Repository.Store.RemoveDelivery | src/main/java/com/example/demo/colaborador/entrega/service/EntregaService.java:153 | deleting a delivery removes it from the table and from its owner's list only |
| Repository.RemoveDeliveryKeepsConsistent | src/main/java/com/example/demo/colaborador/entrega/service/EntregaService.java:153 | after the delete every list still holds exactly its owner's deliveries |
| Repository.Store.InsertEvaluation | src/main/java/com/example/demo/colaborador/avaliacao/service/AvaliacaoComportamentoService.java:51-61 | the first evaluation of an employee gets a fresh id; a second one is refused by the one-to-one mapping and nothing is stored |
| Repository.Store.SaveEvaluation | src/main/java/com/example/demo/colaborador/avaliacao/service/AvaliacaoComportamentoService.java:132 | saving an evaluation replaces its scores and keeps its id |
| Repository.Store.RemoveEvaluation | src/main/java/com/example/demo/colaborador/avaliacao/service/AvaliacaoComportamentoService.java:151-152 | clearing the evaluation removes the orphaned row and nothing else |
| EvaluationService.Respond | src/main/java/com/example/demo/colaborador/avaliacao/service/AvaliacaoComportamentoService.java:159-187 | the response carries the four stored scores and their half-up mean, which stays within 1.00..5.00 |
| EvaluationService.Create | src/main/java/com/example/demo/colaborador/avaliacao/service/AvaliacaoComportamentoService.java:39-62 | a bad matricula or an unknown employee stores nothing; otherwise the evaluation is stored under a new id and reads back as given, and the employees, deliveries and listing order are unchanged |
| EvaluationService.Get | src/main/java/com/example/demo/colaborador/avaliacao/service/AvaliacaoComportamentoService.java:65-87 | an unknown employee and a missing evaluation are two distinct not-found errors; otherwise the response for the stored scores |
| EvaluationService.Update | src/main/java/com/example/demo/colaborador/avaliacao/service/AvaliacaoComportamentoService.java:90-134 | an unknown employee or a missing evaluation changes nothing; otherwise exactly the scores present in the request are overwritten, and the employees, deliveries and listing order are unchanged |
| EvaluationService.Delete | src/main/java/com/example/demo/colaborador/avaliacao/service/AvaliacaoComportamentoService.java:137-157 | deleting removes the evaluation and leaves the employees, deliveries and listing order as they were; with no evaluation it succeeds and changes nothing |
| DeliveryService.Views | src/main/java/com/example/demo/colaborador/entrega/service/EntregaService.java:117-123 | one response per delivery, in list order, with its id, description and score |
| DeliveryService.ViewsOf | src/main/java/com/example/demo/colaborador/entrega/service/EntregaService.java:114-123 | the responses are exactly the employee's own deliveries, at most four, in list order |
| DeliveryService.Create | src/main/java/com/example/demo/colaborador/entrega/service/EntregaService.java:40-62 | a bad matricula, an unknown employee or an employee at the limit of 4 stores nothing; otherwise the delivery is stored under a fresh id and appended to the employee's list, and the evaluations and the listing order are unchanged |
| DeliveryService.Get | src/main/java/com/example/demo/colaborador/entrega/service/EntregaService.java:69-97 | the checks run in order (matricula, employee, delivery, ownership); an id that is not positive is never found; a delivery of another employee is refused with access denied |
| DeliveryService.GetSucceedsExactlyForOwnDeliveries | src/main/java/com/example/demo/colaborador/entrega/service/EntregaService.java:83-85 | a delivery is readable through an employee if and only if it is in that employee's list |
| DeliveryService.List | src/main/java/com/example/demo/colaborador/entrega/service/EntregaService.java:104-124 | an unknown employee is not found; otherwise the list is the employee's deliveries in order |
| DeliveryService.ListAgreesWithGet | src/main/java/com/example/demo/colaborador/entrega/service/EntregaService.java:104-124 | every listed delivery reads back as listed, and every readable delivery is listed |
| DeliveryService.Delete | src/main/java/com/example/demo/colaborador/entrega/service/EntregaService.java:131-155 | any failed check deletes nothing; otherwise the delivery leaves the table and its owner's list and then reads as missing; the evaluations and the listing order are unchanged |
| DeliveryService.Update | src/main/java/com/example/demo/colaborador/entrega/service/EntregaService.java:162-195 | any failed check is a generic error and changes nothing; otherwise exactly the fields present in the request are overwritten, and the listing order is unchanged |
| EmployeeService.View | src/main/java/com/example/demo/colaborador/service/ColaboradorService.java:207-258 | the response carries the employee's fields, an evaluation summary exactly when an evaluation exists, and its deliveries in order |
| EmployeeService.Lookup | src/main/java/com/example/demo/colaborador/service/ColaboradorService.java:59-64 | a bad matricula is an error, an unknown employee is an empty answer, and a stored one is its response |
| EmployeeService.ViewsIn | src/main/java/com/example/demo/colaborador/service/ColaboradorService.java:71-77 | one response per employee, in the given order |
| EmployeeService.ListAll | src/main/java/com/example/demo/colaborador/service/ColaboradorService.java:71-77 | every stored employee appears exactly once, entry i being the i-th employee of the store's order, and each entry is what looking up its matricula returns |
| EmployeeService.Register | src/main/java/com/example/demo/colaborador/service/ColaboradorService.java:41-52 | the new employee has no evaluation and no deliveries, and looking up the returned matricula finds it |
| EmployeeService.Delete | src/main/java/com/example/demo/colaborador/service/ColaboradorService.java:84-92 | an unknown employee is not found and nothing changes; otherwise the employee, its evaluation and its deliveries are gone and a lookup finds nothing |
| EmployeeService.Update | src/main/java/com/example/demo/colaborador/service/ColaboradorService.java:101-128 | exactly the non-null fields among name, admission date and role are overwritten, and an empty request changes nothing |
| EmployeeService.ScoresOf | src/main/java/com/example/demo/colaborador/service/ColaboradorService.java:180-182 | the scores of the deliveries, in list order |
| EmployeeService.PerformanceOf | src/main/java/com/example/demo/colaborador/service/ColaboradorService.java:146-189 | fails exactly when there is no evaluation or fewer than 2 deliveries, with the matching error; otherwise both means are half-up roundings and the final score is their sum |
| EmployeeService.StoredPerformanceWithinScale | src/main/java/com/example/demo/colaborador/service/ColaboradorService.java:168-189 | with the stored scores in range, both means lie within 1.00..5.00 and the final score within 2.00..10.00 |
| EmployeeService.Evaluate | src/main/java/com/example/demo/colaborador/service/ColaboradorService.java:146-189 | the checks and the loop that sums the delivery scores one by one give exactly the specified performance |
| EmployeeService.PerformanceReport | src/main/java/com/example/demo/colaborador/service/ColaboradorService.java:136-142 | a malformed matricula and an unknown employee fail before the evaluation and the deliveries are considered |
| EmployeeService.ComputePerformance | src/main/java/com/example/demo/colaborador/service/ColaboradorService.java:136-200 | the request answers exactly the specified report: lookup failures first, then the performance of the stored records |
| EmployeeService.ListedOnceEach | src/main/java/com/example/demo/colaborador/service/ColaboradorService.java:71-77 | the listing holds each stored employee exactly once |
| EmployeeService.ListedAsLookedUp | src/main/java/com/example/demo/colaborador/service/ColaboradorService.java:71-77 | the entries follow the store's order, and each is what looking up its matricula returns |
| LegacyEmployeeService.Update | src/main/java/com/example/demo/business/services/ColaboradorService.java:73-96 | only the name and the role are overwritten when present; the admission date never changes |
| LegacyEmployeeService.FromWholePoints | src/main/java/com/example/demo/infrastructure/model/AvaliacaoComportamento.java:15-29 | whole points 1..5 are scores within 1.00..5.00 |
| LegacyEmployeeService.WholePointsMeanIsExact | src/main/java/com/example/demo/business/services/ColaboradorService.java:130-136 | with whole-point scores the evaluation mean is exactly a quarter of the total |
| Entities.EmployeeEntity.constructor | src/main/java/com/example/demo/colaborador/model/ColaboradorEntity.java:40-45 | the three-argument constructor leaves the matricula absent, with no evaluation and no deliveries |
| Entities.EmployeeEntity.WithMatricula | src/main/java/com/example/demo/colaborador/model/ColaboradorEntity.java:47-52 | the four-argument constructor sets all four fields |
| Entities.EmployeeEntity.SetEvaluation | src/main/java/com/example/demo/colaborador/model/ColaboradorEntity.java:97-103 | the evaluation is replaced and, when present, points back at the employee; the deliveries keep their owners, and a linked entity stays linked |
| Entities.EmployeeEntity.AddDelivery | src/main/java/com/example/demo/colaborador/model/ColaboradorEntity.java:105-108 | the delivery is appended and points back at the employee; an entity whose associations were linked stays linked, and no other delivery changes owner |
| LegacyEntities.LegacyEmployeeEntity.constructor | src/main/java/com/example/demo/infrastructure/model/Colaborador.java:38-43 | the constructor sets all four fields, with no evaluation and no deliveries |
| LegacyEntities.LegacyEmployeeEntity.SetEvaluation | src/main/java/com/example/demo/infrastructure/model/Colaborador.java:82-88 | the evaluation is replaced and, when present, points back at the employee; the deliveries keep their owners, and a linked entity stays linked |
| LegacyEntities.LegacyEmployeeEntity.AddChallenge | src/main/java/com/example/demo/infrastructure/model/Colaborador.java:98-101 | the delivery is appended and points back at the employee; an entity whose associations were linked stays linked, and no other delivery changes owner |

## Left out

- The HTTP controllers, the request validation annotations, logging and transactions are
  not modelled. The validated score range (1.00..5.00) is a precondition of the methods
  that store a score.
- Scores are modelled as hundredths. A request score with more than two decimals is not
  modelled. The sums use exact decimal arithmetic, as BigDecimal.valueOf on a Double does
  for such values.
- Uuids.ParseUuid: the lenient fallback of `UUID.fromString` reads each group with
  `Long.parseLong(.., 16)`, whose `Character.digit` also takes non-ASCII digits and
  letters (fullwidth forms, for instance). The model treats them as malformed, so such a
  text is refused here and accepted by Java. ASCII texts are modelled exactly, including
  a leading plus sign in a group, dashes in other positions and groups longer than their
  field, of which only the last digits are kept.
- Random matricula generation is a parameter of EmployeeService.Register, required to be
  well formed and unused. Identity columns are counters in the store.
- Names, roles, descriptions and admission dates are stored and returned as given. Their
  validation (not blank, past dates) belongs to the request objects.
- A second evaluation for the same employee: the service does not check for one. The model
  assumes the database's one-to-one join column refuses it, as a generic error that stores
  nothing.
- The listing order of all employees is the order of registration. This is an assumption
  of the model: `findAll` has no sort, and the database promises no order without one.
- A delivery list keeps insertion order. This is also an assumption: the one-to-many
  mapping has no `@OrderBy` or `@OrderColumn`, so the order in which the database returns
  the deliveries is not fixed by the source.
- Delivery ids are Java `Long` values, modelled as unbounded integers. The ids the store
  hands out are positive, so a zero or negative id is never found.
- The earlier `business/services` delivery service and the parts of the earlier employee
  service that match the current code have no members of their own. The same members
  model them: DeliveryService.Create (business/services/EntregaService.java:36-59), DeliveryService.Get (business/services/EntregaService.java:61-89), DeliveryService.List (business/services/EntregaService.java:91-111), DeliveryService.Delete (business/services/EntregaService.java:113-134), DeliveryService.Update (business/services/EntregaService.java:136-160), EmployeeService.Lookup (business/services/ColaboradorService.java:49-53), EmployeeService.ListAll (business/services/ColaboradorService.java:56-58), EmployeeService.Register (business/services/ColaboradorService.java:35-46), EmployeeService.Delete (business/services/ColaboradorService.java:61-70), EmployeeService.ComputePerformance (business/services/ColaboradorService.java:98-162).
- The earlier evaluation entity keeps whole points in a byte. Their 8-bit width is not
  modelled, because the validated range 1..5 keeps them far from it.
- Entities.EmployeeEntity.AddDelivery and LegacyEntities.LegacyEmployeeEntity.AddChallenge:
  they do not state what happens to the list of a delivery's previous owner. The Java
  helpers leave that list untouched, so it still holds a delivery that now points elsewhere.
- The entity getters and setters and the evaluation and delivery entity classes' own
  accessors are plain field reads and writes, and they have no rows.
