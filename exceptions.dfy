/** The error taxonomy of the backend: the exception classes rooted at
    MillyException, each with the `status` and `msg` class attributes it sets
    or inherits, and the foreign errors (database integrity errors, a missing
    row, a value error) that the core lets propagate unchanged. */
module Exceptions {
  import opened Wrappers

  /** One constructor per exception class. InvalidStockChange is raised by the
      stock use case; its class is declared in commerce/domain/exceptions.py. */
  datatype Kind =
    | MillyException
    | ServiceException
    | ClientException
    | InvalidParameter
    | ValueNotFound
    | ValidationFailed
    | Unauthorized
    | ArgumentMissingException
    | NoMorePage
    | Duplicated
    | NotFound
    | DBOptimisticLockError
    | ParameterRequired
    | Unauthenticated
    | InvalidStockChange

  /** Depth in the class tree, MillyException being the root. */
  function Depth(k: Kind): nat {
    match k
    case MillyException => 0
    case ServiceException | ClientException => 1
    case ParameterRequired => 3
    case _ => 2
  }

  /** The direct base class; MillyException derives from Python's Exception,
      which is outside the hierarchy. */
  function Parent(k: Kind): (p: Option<Kind>)
    ensures p.None? <==> k == MillyException
    ensures p.Some? ==> Depth(p.value) + 1 == Depth(k)
  {
    match k
    case MillyException => None
    case ServiceException | ClientException => Some(MillyException)
    case DBOptimisticLockError => Some(ServiceException)
    case ParameterRequired => Some(InvalidParameter)
    case _ => Some(ClientException)
  }

  /** `issubclass(k, a)`. */
  predicate IsSubclass(k: Kind, a: Kind)
    decreases Depth(k)
    ensures IsSubclass(k, a) ==> Depth(a) <= Depth(k)
  {
    k == a || (Parent(k).Some? && IsSubclass(Parent(k).value, a))
  }

  /** The `status` a class body assigns itself, if any. */
  function OwnStatus(k: Kind): (s: Option<int>)
    ensures k == MillyException ==> s.Some?
  {
    match k
    case MillyException | ServiceException => Some(500)
    case ClientException => Some(400)
    case Unauthorized | Unauthenticated => Some(401)
    case _ => None
  }

  /** The `msg` a class body assigns itself, if any. InvalidStockChange's own
      attributes are not part of this model, so it sets none. */
  function OwnMsg(k: Kind): (m: Option<string>)
    ensures k == MillyException ==> m.Some?
  {
    match k
    case MillyException => Some("Unknown error")
    case ServiceException => Some("Service Exception")
    case ClientException => Some("Client error")
    case InvalidParameter => Some("Invalid parameter")
    case ValueNotFound => Some("Value not found")
    case ValidationFailed => Some("Validation failed")
    case Unauthorized => Some("Unauthorized")
    case ArgumentMissingException => Some("Argument missing")
    case NoMorePage => Some("No more page")
    case Duplicated => Some("Duplicated")
    case NotFound => Some("NotFound")
    case DBOptimisticLockError => Some("DB Insert Conflict Error")
    case ParameterRequired => Some("Parameter required")
    case Unauthenticated => Some("Unauthenticated")
    case InvalidStockChange => None
  }

  /** Some class `k` derives from (itself included) sets `status` to `s`. */
  predicate StatusSetAbove(k: Kind, s: int) {
    exists a :: IsSubclass(k, a) && OwnStatus(a) == Some(s)
  }

  /** Some class `k` derives from (itself included) sets `msg` to `m`. */
  predicate MsgSetAbove(k: Kind, m: string) {
    exists a :: IsSubclass(k, a) && OwnMsg(a) == Some(m)
  }

  /** Class-attribute lookup of `status`: the nearest class on the way up to
      MillyException that sets it. */
  function Status(k: Kind): (s: int)
    decreases Depth(k)
    ensures StatusSetAbove(k, s)
    ensures OwnStatus(k).Some? ==> s == OwnStatus(k).value
  {
    match OwnStatus(k)
    case Some(s) => s
    case None =>
      match Parent(k)
      case Some(p) => Status(p)
      case None => assert false; 0
  }

  /** Class-attribute lookup of `msg`. */
  function Msg(k: Kind): (m: string)
    decreases Depth(k)
    ensures MsgSetAbove(k, m)
    ensures m != ""
    ensures OwnMsg(k).Some? ==> m == OwnMsg(k).value
  {
    match OwnMsg(k)
    case Some(m) => m
    case None =>
      match Parent(k)
      case Some(p) => Msg(p)
      case None => assert false; ""
  }

  /** A raised error. `Milly` is an instance of one of the classes above,
      whose `detail` is `None` unless the raiser passes one. */
  datatype Violation = UniqueViolation | ForeignKeyViolation

  datatype Error =
    | Milly(kind: Kind, detail: Option<string>)
    | IntegrityError(violation: Violation)
    | DoesNotExist
    | ValueError(message: string)

  /** `except DBOptimisticLockError`: the only errors the stock retry catches. */
  predicate IsOptimisticLockError(e: Error) {
    e.Milly? && IsSubclass(e.kind, DBOptimisticLockError)
  }

  /** A subclass is never shallower than its base, and only a class itself
      sits at the same depth. */
  lemma {:induction false} SubclassDepth(k: Kind, a: Kind)
    requires IsSubclass(k, a)
    ensures Depth(a) <= Depth(k)
    ensures Depth(a) == Depth(k) ==> k == a
    decreases Depth(k)
  {
    if k != a {
      SubclassDepth(Parent(k).value, a);
    }
  }

  /** `issubclass` is transitive. */
  lemma {:induction false} SubclassTransitive(a: Kind, b: Kind, c: Kind)
    requires IsSubclass(a, b) && IsSubclass(b, c)
    ensures IsSubclass(a, c)
    decreases Depth(a)
  {
    if a != b {
      SubclassTransitive(Parent(a).value, b, c);
    }
  }

  /** `issubclass` is antisymmetric. */
  lemma SubclassAntisymmetric(a: Kind, b: Kind)
    requires IsSubclass(a, b) && IsSubclass(b, a)
    ensures a == b
  {
    SubclassDepth(a, b);
    SubclassDepth(b, a);
  }

  /** Every class derives from MillyException and carries one of the three
      statuses 400, 401 or 500, and a message. */
  lemma {:induction false} EveryKindIsMilly(k: Kind)
    ensures IsSubclass(k, MillyException)
    ensures Status(k) in {400, 401, 500}
    decreases Depth(k)
  {
    if k != MillyException {
      EveryKindIsMilly(Parent(k).value);
    }
  }

  /** A class that sets no `status` of its own has its base's. */
  lemma {:induction false} InheritedStatus(k: Kind, a: Kind)
    requires IsSubclass(k, a)
    requires forall c :: IsSubclass(k, c) && c != a && IsSubclass(c, a) ==> OwnStatus(c).None?
    ensures Status(k) == Status(a)
    decreases Depth(k)
  {
    if k != a {
      var p := Parent(k).value;
      assert OwnStatus(k).None?;
      forall c | IsSubclass(p, c) && c != a && IsSubclass(c, a)
        ensures OwnStatus(c).None?
      {
        assert IsSubclass(k, c);
      }
      InheritedStatus(p, a);
    }
  }

  /** A class that sets no `msg` of its own has its base's. */
  lemma {:induction false} InheritedMsg(k: Kind, a: Kind)
    requires IsSubclass(k, a)
    requires forall c :: IsSubclass(k, c) && c != a && IsSubclass(c, a) ==> OwnMsg(c).None?
    ensures Msg(k) == Msg(a)
    decreases Depth(k)
  {
    if k != a {
      var p := Parent(k).value;
      assert OwnMsg(k).None?;
      forall c | IsSubclass(p, c) && c != a && IsSubclass(c, a)
        ensures OwnMsg(c).None?
      {
        assert IsSubclass(k, c);
      }
      InheritedMsg(p, a);
    }
  }

  /** Client errors answer 400, except Unauthorized and Unauthenticated (and
      any subclass of theirs), which answer 401. */
  lemma ClientStatus(k: Kind)
    requires IsSubclass(k, ClientException)
    ensures Status(k) == if IsSubclass(k, Unauthorized) || IsSubclass(k, Unauthenticated) then 401 else 400
  {
    if IsSubclass(k, Unauthorized) || IsSubclass(k, Unauthenticated) {
      assert k == Unauthorized || k == Unauthenticated;
    } else if k == ParameterRequired {
      assert Status(k) == Status(InvalidParameter);
    }
  }

  /** Service errors, the optimistic-lock conflict among them, answer 500. */
  lemma ServiceStatus(k: Kind)
    requires IsSubclass(k, ServiceException)
    ensures Status(k) == 500
  {
    match k
    case _ =>
  }

  /** The conflict is a service error, but a plain service error is not a
      conflict, so the stock retry does not catch it. */
  lemma LockErrorIsServiceError()
    ensures IsSubclass(DBOptimisticLockError, ServiceException)
    ensures !IsSubclass(ServiceException, DBOptimisticLockError)
    ensures Status(DBOptimisticLockError) == 500 && Status(ServiceException) == 500
    ensures !IsOptimisticLockError(Milly(ServiceException, Some("stock event not found.")))
    ensures IsOptimisticLockError(Milly(DBOptimisticLockError, None))
  {
  }

  /** ParameterRequired is an InvalidParameter, hence a client error with
      status 400. */
  lemma ParameterRequiredIsClientError()
    ensures IsSubclass(ParameterRequired, InvalidParameter)
    ensures IsSubclass(ParameterRequired, ClientException)
    ensures Status(ParameterRequired) == 400
  {
  }
}
