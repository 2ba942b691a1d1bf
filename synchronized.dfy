/**
 * The `@Synchronized` macro, which has two roles. As an accessor macro it
 * turns a typed, initialised stored property `name` into a getter and a
 * setter that go through `name_lock` and `name_storage`. As a peer macro it
 * declares `name_inner` and `name_lock` beside a named declaration.
 *
 * The generated code is kept as short lists of abstract statements rather
 * than text, so that the order of locking, reading and writing in it can be
 * stated and proved.
 */
module Synchronized {
  import opened Syntax

  datatype SynchronizedError = MissingInitializer

  function Description(e: SynchronizedError): (r: string)
    ensures r == "Stored property must have an initializer"
  {
    match e
    case MissingInitializer => "Stored property must have an initializer"
  }

  /** How an expansion ends: it returns a value or throws. */
  datatype Result<+T> = Returned(value: T) | Thrown(error: SynchronizedError)

  // The naming convention. The accessors use `_lock` and `_storage`; the
  // peer declarations use `_lock` and `_inner`.

  function LockName(name: string): string { name + "_lock" }

  function StorageName(name: string): string { name + "_storage" }

  function InnerName(name: string): string { name + "_inner" }

  /** Different properties get different locks and different storage names. */
  lemma NamingInjective(n: string, m: string)
    ensures LockName(n) == LockName(m) ==> n == m
    ensures StorageName(n) == StorageName(m) ==> n == m
  {
    if LockName(n) == LockName(m) {
      assert n == LockName(n)[..|n|] && m == LockName(m)[..|m|];
    }
    if StorageName(n) == StorageName(m) {
      assert n == StorageName(n)[..|n|] && m == StorageName(m)[..|m|];
    }
  }

  /**
   * The storage the accessors read and write is never a variable the peer
   * expansion declares, whatever the two names are: a `_storage` name ends
   * in 'e', an `_inner` name in 'r' and a `_lock` name in 'k'.
   */
  lemma StorageNameNeverPeerName(n: string, m: string)
    ensures StorageName(n) != InnerName(m)
    ensures StorageName(n) != LockName(m)
  {
    var s, i, l := StorageName(n), InnerName(m), LockName(m);
    assert s[|s| - 1] == 'e';
    assert i[|i| - 1] == 'r';
    assert l[|l| - 1] == 'k';
  }

  /** A statement of a generated accessor body. */
  datatype Stmt =
    | DeferUnlock(lock: string)          // defer { <lock>.unlock() }
    | DeclareResult(resultType: TypeText) // var result: <type>!   (implicitly unwrapped)
    | Lock(lock: string)                 // <lock>.lock()
    | ReadStorage(storage: string)       // result = <storage>
    | WriteStorage(storage: string)      // <storage> = newValue
    | Unlock(lock: string)               // <lock>.unlock()
    | ReturnResult                       // return result

  datatype Accessor = Accessor(specifier: AccessorSpecifier, body: seq<Stmt>)

  /** The getter generated for property `name` of type `annotatedType`. */
  function Getter(name: string, annotatedType: TypeText): (r: Accessor)
    ensures r.specifier == Get
    ensures DeclareResult(annotatedType) in r.body && ReadStorage(StorageName(name)) in r.body
    ensures r.body[|r.body| - 1] == ReturnResult
    ensures forall s :: s in r.body && (s.Lock? || s.Unlock? || s.DeferUnlock?) ==> s.lock == LockName(name)
    ensures forall s :: s in r.body ==> !s.WriteStorage? && !s.Unlock?
  {
    Accessor(Get, [
      DeferUnlock(LockName(name)),
      DeclareResult(annotatedType),
      Lock(LockName(name)),
      ReadStorage(StorageName(name)),
      ReturnResult])
  }

  /** The setter generated for property `name`. */
  function Setter(name: string): (r: Accessor)
    ensures r.specifier == Set
    ensures WriteStorage(StorageName(name)) in r.body
    ensures forall s :: s in r.body && (s.Lock? || s.Unlock? || s.DeferUnlock?) ==> s.lock == LockName(name)
    ensures forall s :: s in r.body ==> !s.ReadStorage? && !s.DeferUnlock? && !s.ReturnResult?
  {
    Accessor(Set, [
      Lock(LockName(name)),
      WriteStorage(StorageName(name)),
      Unlock(LockName(name))])
  }

  // Reading a body statement by statement, for one lock and one storage
  // variable: whether the lock is held, and whether an unlock is deferred to
  // the end of the scope. A misuse (locking a held lock, unlocking a free
  // one, deferring twice, touching the storage without the lock) gives None.

  datatype LockState = LockState(held: bool, unlockDeferred: bool)

  const Start := LockState(false, false)

  function Step(s: Stmt, lock: string, storage: string, st: LockState): Option<LockState>
  {
    match s
    case DeferUnlock(l) =>
      if l != lock then Some(st) else if st.unlockDeferred then None else Some(st.(unlockDeferred := true))
    case Lock(l) =>
      if l != lock then Some(st) else if st.held then None else Some(st.(held := true))
    case Unlock(l) =>
      if l != lock then Some(st) else if !st.held then None else Some(st.(held := false))
    case ReadStorage(x) => if x == storage && !st.held then None else Some(st)
    case WriteStorage(x) => if x == storage && !st.held then None else Some(st)
    case DeclareResult(_) => Some(st)
    case ReturnResult => Some(st)
  }

  /** The state at the first `return`, or at the end of the body. */
  function Run(body: seq<Stmt>, lock: string, storage: string, st: LockState): Option<LockState>
  {
    if body == [] || body[0] == ReturnResult then Some(st)
    else match Step(body[0], lock, storage, st)
      case None => None
      case Some(next) => Run(body[1..], lock, storage, next)
  }

  /** Leaving the scope runs the deferred unlock: whether the lock is still held afterwards, or None when the deferred unlock finds it free. */
  function Exit(st: LockState): Option<bool>
  {
    if st.unlockDeferred then (if st.held then Some(false) else None) else Some(st.held)
  }

  /** Whether the lock is still held after leaving the body once its first `k` statements have run. */
  function ExitAfter(body: seq<Stmt>, lock: string, storage: string, k: nat): Option<bool>
    requires k <= |body|
  {
    match Run(body[..k], lock, storage, Start)
    case None => None
    case Some(st) => Exit(st)
  }

  /** Run to completion, the body touches the storage only under the lock and leaves with the lock released. */
  predicate Disciplined(body: seq<Stmt>, lock: string, storage: string)
  {
    ExitAfter(body, lock, storage, |body|) == Some(false)
  }

  /**
   * Leaving the body after any number of its statements never leaves the
   * lock held. An exit whose walk is a misuse (None) is not one that leaves
   * the lock held, so it does not break this; the lemmas below say which
   * exits release the lock and which are misuses.
   */
  predicate ReleasedOnEveryExit(body: seq<Stmt>, lock: string, storage: string)
  {
    forall k: nat :: k <= |body| ==> ExitAfter(body, lock, storage, k) != Some(true)
  }

  /**
   * In a body that runs without misuse, every storage access before the
   * first `return` comes after some `lock()` of the lock.
   */
  lemma {:induction false} AccessFollowsLock(body: seq<Stmt>, lock: string, storage: string, st: LockState, i: int)
    requires Run(body, lock, storage, st).Some?
    requires 0 <= i < |body|
    requires body[i] in {ReadStorage(storage), WriteStorage(storage)}
    requires forall j :: 0 <= j < i ==> body[j] != ReturnResult
    ensures st.held || exists j :: 0 <= j < i && body[j] == Lock(lock)
    decreases |body|
  {
    if i > 0 && !st.held {
      var next := Step(body[0], lock, storage, st).value;
      assert body[1..][i - 1] == body[i];
      AccessFollowsLock(body[1..], lock, storage, next, i - 1);
      if next.held {
        assert body[0] == Lock(lock);
      } else {
        var j :| 0 <= j < i - 1 && body[1..][j] == Lock(lock);
        assert body[j + 1] == Lock(lock);
      }
    }
  }

  /**
   * The getter defers its unlock, declares its local, locks, reads the
   * storage and returns. It is disciplined, and every exit once it holds the
   * lock releases it. An exit between the `defer` and the `lock()` would be
   * a misuse: the deferred unlock would find the lock free.
   */
  lemma GetterDisciplined(name: string, annotatedType: TypeText)
    ensures var body, lock, storage := Getter(name, annotatedType).body, LockName(name), StorageName(name);
      && body == [DeferUnlock(lock), DeclareResult(annotatedType), Lock(lock), ReadStorage(storage), ReturnResult]
      && Disciplined(body, lock, storage)
      && ReleasedOnEveryExit(body, lock, storage)
      && (forall k: nat :: 3 <= k <= |body| ==> ExitAfter(body, lock, storage, k) == Some(false))
      && ExitAfter(body, lock, storage, 1) == None && ExitAfter(body, lock, storage, 2) == None
  {
    var body, lock, storage := Getter(name, annotatedType).body, LockName(name), StorageName(name);
    var afterDefer := LockState(false, true);
    var locked := LockState(true, true);
    assert Run(body[4..], lock, storage, locked) == Some(locked);
    assert Run(body[3..], lock, storage, locked) == Some(locked);
    assert Run(body[2..], lock, storage, afterDefer) == Some(locked);
    assert Run(body[1..], lock, storage, afterDefer) == Some(locked);
    assert body[..|body|] == body;
    forall k: nat | k <= |body|
      ensures ExitAfter(body, lock, storage, k) != Some(true)
      ensures k >= 3 ==> ExitAfter(body, lock, storage, k) == Some(false)
      ensures 1 <= k <= 2 ==> ExitAfter(body, lock, storage, k) == None
    {
      var prefix := body[..k];
      if k >= 3 {
        assert prefix[3..] == body[3..k];
        assert Run(prefix[3..], lock, storage, locked) == Some(locked);
        assert Run(prefix[2..], lock, storage, afterDefer) == Some(locked);
        assert Run(prefix[1..], lock, storage, afterDefer) == Some(locked);
      } else if k >= 1 {
        assert prefix[1..] == body[1..k];
        assert Run(prefix[1..], lock, storage, afterDefer) == Some(afterDefer);
      }
    }
  }

  /**
   * The setter locks, writes the storage and unlocks, in that order, with no
   * deferred unlock: it is disciplined run to completion, but leaving it
   * after the lock and before the unlock leaves the lock held.
   */
  lemma SetterDisciplined(name: string)
    ensures var body, lock, storage := Setter(name).body, LockName(name), StorageName(name);
      && body == [Lock(lock), WriteStorage(storage), Unlock(lock)]
      && Disciplined(body, lock, storage)
      && !ReleasedOnEveryExit(body, lock, storage)
      && ExitAfter(body, lock, storage, 1) == Some(true) && ExitAfter(body, lock, storage, 2) == Some(true)
      && DeferUnlock(lock) !in body
  {
    var body, lock, storage := Setter(name).body, LockName(name), StorageName(name);
    var locked := LockState(true, false);
    assert Run(body[2..], lock, storage, locked) == Some(Start);
    assert Run(body[1..], lock, storage, locked) == Some(Start);
    assert body[..|body|] == body;
    assert body[..1] == [Lock(lock)] && body[..1][1..] == [];
    assert Run(body[..1], lock, storage, Start) == Some(locked);
    assert ExitAfter(body, lock, storage, 1) == Some(true);
    assert body[..2] == [Lock(lock), WriteStorage(storage)] && body[..2][1..] == [WriteStorage(storage)];
    assert Run(body[..2], lock, storage, Start) == Some(locked);
    assert ExitAfter(body, lock, storage, 2) == Some(true);
  }

  /** The facts the accessor expansion needs from a declaration: its identifier, its annotated type and its initializer, if any. */
  datatype Candidate = Candidate(identifier: string, annotatedType: TypeText, initializer: Option<Expr>)

  /** The guard chain: a variable whose first binding has an identifier pattern, no accessor block and a type annotation. */
  function Eligible(declaration: Decl): (r: Option<Candidate>)
    ensures r.Some? <==>
      && declaration.VariableDecl?
      && |declaration.bindings| > 0
      && declaration.bindings[0].pattern.IdentifierPattern?
      && declaration.bindings[0].accessorBlock.None?
      && declaration.bindings[0].typeAnnotation.Some?
    ensures r.Some? ==>
      var b := declaration.bindings[0];
      r.value == Candidate(b.pattern.identifier, b.typeAnnotation.value, b.initializer)
  {
    match declaration
    case VariableDecl(bindings) =>
      if |bindings| == 0 then None
      else
        var b := bindings[0];
        if !b.pattern.IdentifierPattern? || b.accessorBlock.Some? || b.typeAnnotation.None? then None
        else Some(Candidate(b.pattern.identifier, b.typeAnnotation.value, b.initializer))
    case _ => None
  }

  /** The accessor expansion: nothing for a non-candidate, an error for a candidate without initializer, else the getter and the setter. */
  function AccessorExpansion(declaration: Decl): (r: Result<seq<Accessor>>)
    ensures r.Returned? && r.value != [] ==>
      |r.value| == 2 && r.value[0].specifier == Get && r.value[1].specifier == Set
  {
    match Eligible(declaration)
    case None => Returned([])
    case Some(c) =>
      if c.initializer.None? then Thrown(MissingInitializer)
      else Returned([Getter(c.identifier, c.annotatedType), Setter(c.identifier)])
  }

  /**
   * The expansion silently returns no accessors exactly when the declaration
   * is not a variable, has no binding, has a non-identifier pattern, already
   * has an accessor block or has no type annotation.
   */
  lemma SkipConditions(declaration: Decl)
    ensures AccessorExpansion(declaration) == Returned([]) <==>
      || !declaration.VariableDecl?
      || |declaration.bindings| == 0
      || !declaration.bindings[0].pattern.IdentifierPattern?
      || declaration.bindings[0].accessorBlock.Some?
      || declaration.bindings[0].typeAnnotation.None?
  {
  }

  /** The expansion throws exactly for an otherwise eligible property with no initializer. */
  lemma MissingInitializerExactly(declaration: Decl)
    ensures AccessorExpansion(declaration) == Thrown(MissingInitializer) <==>
      && declaration.VariableDecl?
      && |declaration.bindings| > 0
      && declaration.bindings[0].pattern.IdentifierPattern?
      && declaration.bindings[0].accessorBlock.None?
      && declaration.bindings[0].typeAnnotation.Some?
      && declaration.bindings[0].initializer.None?
  {
  }

  /** The skip conditions win over the initializer check: an untyped property without initializer is skipped, not rejected. */
  lemma SkipBeforeInitializerCheck(pattern: Pattern, accessorBlock: Option<AccessorBlock>, rest: seq<PatternBinding>)
    ensures AccessorExpansion(VariableDecl([PatternBinding(pattern, None, None, accessorBlock)] + rest)) == Returned([])
  {
  }

  /**
   * An eligible, initialised property `name: T` gets the getter then the
   * setter. The getter defers the unlock of `name_lock`, declares its local
   * with type T, locks, reads `name_storage` and returns it; the setter
   * locks, writes `name_storage` and unlocks.
   */
  lemma ExpandedAccessors(declaration: Decl)
    requires Eligible(declaration).Some? && Eligible(declaration).value.initializer.Some?
    ensures var c := Eligible(declaration).value;
      var lock, storage := LockName(c.identifier), StorageName(c.identifier);
      && AccessorExpansion(declaration).Returned?
      && |AccessorExpansion(declaration).value| == 2
      && var getter, setter := AccessorExpansion(declaration).value[0], AccessorExpansion(declaration).value[1];
      && getter == Getter(c.identifier, c.annotatedType) && setter == Setter(c.identifier)
      && getter.specifier == Get && setter.specifier == Set
      && getter.body == [DeferUnlock(lock), DeclareResult(c.annotatedType), Lock(lock), ReadStorage(storage), ReturnResult]
      && setter.body == [Lock(lock), WriteStorage(storage), Unlock(lock)]
      && Disciplined(getter.body, lock, storage) && ReleasedOnEveryExit(getter.body, lock, storage)
      && Disciplined(setter.body, lock, storage) && !ReleasedOnEveryExit(setter.body, lock, storage)
  {
    var c := Eligible(declaration).value;
    GetterDisciplined(c.identifier, c.annotatedType);
    SetterDisciplined(c.identifier);
  }

  /** The initializer's value is never used: two properties with the same name and type get the same accessors. */
  lemma AccessorsIgnoreInitializerValue(d1: Decl, d2: Decl)
    requires Eligible(d1).Some? && Eligible(d2).Some?
    requires Eligible(d1).value.initializer.Some? && Eligible(d2).value.initializer.Some?
    requires Eligible(d1).value.identifier == Eligible(d2).value.identifier
    requires Eligible(d1).value.annotatedType == Eligible(d2).value.annotatedType
    ensures AccessorExpansion(d1) == AccessorExpansion(d2)
  {
  }

  /** A variable the peer expansion declares. */
  datatype PeerVar =
    | TypedVar(name: string, typeName: TypeText)  // private var <name>: <type>
    | LockVar(name: string)                       // private var <name> = NSLock()

  /** The peer expansion: for a named declaration, one fragment declaring `<name>_inner: T` and `<name>_lock = NSLock()`. */
  function PeerExpansion(declaration: Decl): (r: seq<seq<PeerVar>>)
    ensures r == [] <==> DeclName(declaration).None?
    ensures r != [] ==>
      |r| == 1 && r[0] == [TypedVar(InnerName(declaration.name), "T"), LockVar(LockName(declaration.name))]
  {
    match DeclName(declaration)
    case None => []
    case Some(name) => [[TypedVar(InnerName(name), "T"), LockVar(LockName(name))]]
  }

  /**
   * Of the two names the accessors of a property `name` use, the peer
   * expansion of a declaration with the same name declares the lock but not
   * the storage.
   */
  lemma PeerDeclaresLockButNotStorage(declaration: Decl, name: string)
    requires DeclName(declaration) == Some(name)
    ensures exists v :: v in PeerExpansion(declaration)[0] && v.name == LockName(name)
    ensures forall v :: v in PeerExpansion(declaration)[0] ==> v.name != StorageName(name)
  {
    assert LockVar(LockName(name)) in PeerExpansion(declaration)[0];
    StorageNameNeverPeerName(name, name);
  }

  /**
   * A stored property is not a named declaration, so when the accessor
   * expansion rewrites one, the peer expansion of that same declaration
   * declares nothing.
   */
  lemma StoredPropertyGetsNoPeers(declaration: Decl)
    requires AccessorExpansion(declaration).Returned? && AccessorExpansion(declaration).value != []
    ensures PeerExpansion(declaration) == []
  {
  }
}
