/** Types shared by every module: instants, identifiers, optional values and
    the error taxonomy of the domain crate. */
module Prelude {

  /** Instants and durations are integers in one unit; their origin is irrelevant. */
  type Timestamp = int
  type Duration = int

  /** Identifiers are numbers: compared, and ordered where the source keeps rows by id. */
  type TenantId = nat
  type RevisionId = nat
  type EnvironmentId = nat
  type AttemptId = nat
  type InvocationId = nat
  type LeaseId = nat
  type DispatcherId = nat

  datatype Option<+T> = None | Some(value: T)

  datatype Result<+T, +E> = Success(value: T) | Failure(error: E)

  datatype DomainError =
    | Terminal(entity: string, state: string)
    | IllegalTransition(entity: string, from: string, to: string)
    | Validation(field: string, reason: string)

  function Pow2(k: nat): (p: nat)
    ensures p >= 1
  {
    if k == 0 then 1 else 2 * Pow2(k - 1)
  }

  lemma MultipliesUp(b: nat, m: int, n: int)
    requires m <= n
    ensures b * m <= b * n
  {
    assert b * (n - m) >= 0;
  }

  lemma DivisionIsUnique(a: int, b: nat, q: int, r: int)
    requires b > 0 && 0 <= r < b && a == b * q + r
    ensures a / b == q && a % b == r
  {
    var d := q - a / b;
    assert b * d == a % b - r;
    if d >= 1 {
      MultipliesUp(b, 1, d);
    } else if d <= -1 {
      MultipliesUp(b, d, -1);
    }
  }

  predicate IsFirst(id: nat, ids: set<nat>) {
    id in ids && forall other :: other in ids ==> id <= other
  }

  lemma {:induction false} ThereIsAFirst(ids: set<nat>)
    requires ids != {}
    ensures exists id :: IsFirst(id, ids)
  {
    var some :| some in ids;
    if ids == {some} {
      assert IsFirst(some, ids);
    } else {
      var others := ids - {some};
      assert others != {} by {
        assert ids == others + {some};
      }
      ThereIsAFirst(others);
      var rest :| IsFirst(rest, others);
      assert forall other :: other in ids ==> other == some || other in others;
      assert IsFirst(if some < rest then some else rest, ids);
    }
  }

  /** The key an ordered map yields first. */
  method FirstId(ids: set<nat>) returns (id: nat)
    requires ids != {}
    ensures IsFirst(id, ids)
  {
    ThereIsAFirst(ids);
    id :| id in ids && forall other :: other in ids ==> id <= other;
  }
}
