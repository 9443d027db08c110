/** The persisted records (employee, behavioural evaluation, delivery), the
    response shapes the services build from them, and the partial-update requests. */
module Records {
  import opened Common
  import opened Uuids
  import opened Decimal

  /** A calendar date (LocalDate); the model only stores and compares dates. */
  datatype Date = Date(year: int, month: nat, day: nat)

  /** The four scores of a behavioural evaluation, in hundredths. */
  datatype Scores = Scores(behavioural: nat, learning: nat, decisionMaking: nat, autonomy: nat)

  predicate ScoresInRange(s: Scores) {
    InScoreRange(s.behavioural) && InScoreRange(s.learning) &&
    InScoreRange(s.decisionMaking) && InScoreRange(s.autonomy)
  }

  function Total(s: Scores): nat {
    s.behavioural + s.learning + s.decisionMaking + s.autonomy
  }

  /** The evaluation mean: the sum of the four scores divided by 4, rounded half-up
      to two decimals. */
  function EvaluationMean(s: Scores): (r: nat)
    ensures IsHalfUpRounding(r, Total(s), 4)
    ensures ScoresInRange(s) ==> InScoreRange(r)
  {
    RangeGivesEvaluationMeanInRange(s);
    RoundHalfUp(Total(s), 4)
  }

  lemma RangeGivesEvaluationMeanInRange(s: Scores)
    ensures ScoresInRange(s) ==> InScoreRange(RoundHalfUp(Total(s), 4))
  {
    if ScoresInRange(s) {
      MeanWithinRange(Total(s), 4);
    }
  }

  /** An employee as stored; its matricula is the key it is stored under. The
      delivery list holds the ids of its deliveries in list order. */
  datatype Employee = Employee(name: string, admissionDate: Date, role: string, deliveries: seq<int>)

  /** The evaluation of one employee; the employee is the key it is stored under. */
  datatype Evaluation = Evaluation(id: nat, scores: Scores)

  /** A delivery with the matricula of the employee that owns it. */
  datatype Delivery = Delivery(description: string, score: nat, owner: Uuid)

  datatype DeliveryView = DeliveryView(id: int, description: string, score: nat)

  datatype EvaluationView = EvaluationView(
    behavioural: nat, learning: nat, decisionMaking: nat, autonomy: nat, mean: nat)

  datatype EmployeeView = EmployeeView(
    matricula: Uuid, name: string, admissionDate: Date, role: string,
    evaluation: Option<EvaluationView>, deliveries: seq<DeliveryView>)

  datatype Performance = Performance(
    matricula: Uuid, name: string, evaluationMean: nat, deliveryMean: nat, finalScore: nat)

  /** Partial updates: None stands for a field left null in the request. */
  datatype EmployeePatch = EmployeePatch(name: Option<string>, admissionDate: Option<Date>, role: Option<string>)
  datatype LegacyEmployeePatch = LegacyEmployeePatch(name: Option<string>, role: Option<string>)
  datatype DeliveryPatch = DeliveryPatch(description: Option<string>, score: Option<nat>)
  datatype ScoresPatch = ScoresPatch(
    behavioural: Option<nat>, learning: Option<nat>, decisionMaking: Option<nat>, autonomy: Option<nat>)

  /** The scores a request may carry: each present one within 1.00..5.00. */
  predicate DeliveryPatchInRange(p: DeliveryPatch) {
    p.score.Some? ==> InScoreRange(p.score.value)
  }

  predicate ScoresPatchInRange(p: ScoresPatch) {
    && (p.behavioural.Some? ==> InScoreRange(p.behavioural.value))
    && (p.learning.Some? ==> InScoreRange(p.learning.value))
    && (p.decisionMaking.Some? ==> InScoreRange(p.decisionMaking.value))
    && (p.autonomy.Some? ==> InScoreRange(p.autonomy.value))
  }

  /** s with every occurrence of x removed, the rest in order. */
  function Without<T(==,!new)>(s: seq<T>, x: T): (r: seq<T>)
    ensures |r| <= |s|
    ensures forall y :: y in r <==> y in s && y != x
  {
    if s == [] then []
    else if s[0] == x then Without(s[1..], x)
    else [s[0]] + Without(s[1..], x)
  }

  predicate Distinct<T(==)>(s: seq<T>) {
    forall i, j :: 0 <= i < j < |s| ==> s[i] != s[j]
  }

  lemma {:induction false} WithoutKeepsDistinct<T(!new)>(s: seq<T>, x: T)
    requires Distinct(s)
    ensures Distinct(Without(s, x))
  {
    if s != [] {
      assert Distinct(s[1..]);
      WithoutKeepsDistinct(s[1..], x);
      var w := Without(s[1..], x);
      if s[0] != x {
        assert s[0] !in s[1..];
        assert s[0] !in w;
        assert Without(s, x) == [s[0]] + w;
      }
    }
  }
}
