/** Resolving the five probe offsets from an already parsed symbol table. */
module Symbols {
  import opened Machine

  /** An ELF symbol: is it text, its name if it decodes, its address. */
  datatype Symbol = Symbol(isText: bool, name: Option<string>, address: u64)

  datatype Target = Prepare | Execute | ExecuteImmediate | OpenCursor | FetchNext

  datatype Offsets = Offsets(prepare: u64, execute: u64, executeImmediate: u64, openCursor: u64, fetchNext: u64)

  datatype Error = Conflict(target: Target) | NotFound(target: Target)

  datatype Result<T, E> = Ok(value: T) | Err(error: E)

  function OffsetOf(o: Offsets, t: Target): u64 {
    match t
    case Prepare => o.prepare
    case Execute => o.execute
    case ExecuteImmediate => o.executeImmediate
    case OpenCursor => o.openCursor
    case FetchNext => o.fetchNext
  }

  /** Mangled prefix of each target (length-prefixed names, section 5.1 of the
      Itanium C++ ABI). */
  function Prefix(t: Target): string {
    match t
    case Prepare => "_Z12DSQL_prepareP"
    case Execute => "_Z12DSQL_executeP"
    case ExecuteImmediate => "_Z22DSQL_execute_immediateP"
    case OpenCursor => "_ZN3Jrd14DsqlDmlRequest10openCursorE"
    case FetchNext => "_ZN3Jrd10DsqlCursor9fetchNextE"
  }

  predicate EndsWith(s: string, suffix: string) {
    |suffix| <= |s| && s[|s| - |suffix|..] == suffix
  }

  predicate Candidate(s: Symbol) { s.isText && s.name.Some? && !EndsWith(s.name.value, ".cold") }

  predicate Matches(s: Symbol, t: Target) { Candidate(s) && Prefix(t) <= s.name.value }

  /** The else-if chain of the resolver, in its order. */
  function Dispatch(s: Symbol): Option<Target> {
    if !Candidate(s) then None
    else if Prefix(Prepare) <= s.name.value then Some(Prepare)
    else if Prefix(ExecuteImmediate) <= s.name.value then Some(ExecuteImmediate)
    else if Prefix(Execute) <= s.name.value then Some(Execute)
    else if Prefix(OpenCursor) <= s.name.value then Some(OpenCursor)
    else if Prefix(FetchNext) <= s.name.value then Some(FetchNext)
    else None
  }

  /** Characters 2, 8 and 9 of each prefix, which tell them apart. */
  function Mark(t: Target): string {
    match t
    case Prepare => "1_p"
    case Execute => "1_e"
    case ExecuteImmediate => "2_e"
    case OpenCursor => "N4D"
    case FetchNext => "N0D"
  }

  lemma MarkIs(t: Target)
    ensures var p := Prefix(t); |p| > 9 && Mark(t) == [p[2], p[8], p[9]]
  {
  }

  lemma MarksDiffer(t: Target, u: Target)
    requires Mark(t) == Mark(u)
    ensures t == u
  {
    assert Mark(t)[0] == Mark(u)[0] && Mark(t)[1] == Mark(u)[1] && Mark(t)[2] == Mark(u)[2];
  }

  /** No prefix is a prefix of another: each pair differs at a shared position. */
  lemma PrefixesAreIncomparable(t: Target, u: Target, name: string)
    requires Prefix(t) <= name && Prefix(u) <= name
    ensures t == u
  {
    hide Prefix, Mark;
    MarkIs(t);
    MarkIs(u);
    assert Mark(t) == [name[2], name[8], name[9]] == Mark(u);
    MarksDiffer(t, u);
  }

  // ---------- the names looked for ----------

  function Decimal(n: nat): string {
    if n < 10 then [('0' as int + n) as char] else Decimal(n / 10) + [('0' as int + n % 10) as char]
  }

  /** A source name behind its length. */
  function Sized(name: string): string { Decimal(|name|) + name }

  /** Mangled name of a free function whose first parameter is a pointer, up to
      that parameter, and of a member function, up to its parameters (section 5.1
      of the Itanium C++ ABI). */
  function FreeFunction(name: string): string { "_Z" + Sized(name) + "P" }

  function MemberFunction(scope: string, cls: string, name: string): string {
    "_ZN" + Sized(scope) + Sized(cls) + Sized(name) + "E"
  }

  lemma FreeIs(name: string, digits: string)
    requires Decimal(|name|) == digits
    ensures FreeFunction(name) == "_Z" + digits + name + "P"
  {
    hide Decimal;
    assert "_Z" + (digits + name) == "_Z" + digits + name;
  }

  lemma ScopeIs()
    ensures "_ZN" + Sized("Jrd") == "_ZN3Jrd"
  {
    assert Decimal(3) == "3";
    assert "3" + "Jrd" == "3Jrd";
  }

  lemma Join(p: string, a: string, b: string, c: string, d: string)
    ensures p + (a + b) + (c + d) == p + a + b + c + d
  {
    assert p + (a + b) == p + a + b;
    assert p + a + b + (c + d) == p + a + b + c + d;
  }

  lemma MemberIs(cls: string, name: string, d: string, d': string)
    requires Decimal(|cls|) == d && Decimal(|name|) == d'
    ensures MemberFunction("Jrd", cls, name) == "_ZN3Jrd" + d + cls + d' + name + "E"
  {
    ScopeIs();
    hide Decimal;
    Join("_ZN3Jrd", d, cls, d', name);
    assert Sized(cls) == d + cls && Sized(name) == d' + name;
    hide Sized;
  }

  lemma Decimals()
    ensures Decimal(9) == "9" && Decimal(10) == "10" && Decimal(12) == "12"
    ensures Decimal(14) == "14" && Decimal(22) == "22"
  {
    assert Decimal(1) == "1" && Decimal(2) == "2";
  }

  lemma PrepareSpelled()
    ensures Prefix(Prepare) == "_Z" + "12" + "DSQL_prepare" + "P"
  {
  }

  lemma ExecuteSpelled()
    ensures Prefix(Execute) == "_Z" + "12" + "DSQL_execute" + "P"
  {
  }

  lemma ExecuteImmediateSpelled()
    ensures Prefix(ExecuteImmediate) == "_Z" + "22" + "DSQL_execute_immediate" + "P"
  {
  }

  lemma OpenCursorSpelled()
    ensures Prefix(OpenCursor) == "_ZN3Jrd" + "14" + "DsqlDmlRequest" + "10" + "openCursor" + "E"
  {
  }

  lemma FetchNextSpelled()
    ensures Prefix(FetchNext) == "_ZN3Jrd" + "10" + "DsqlCursor" + "9" + "fetchNext" + "E"
  {
  }

  /** The prefixes are the manglings of the five probed functions. */
  lemma PrefixesAreManglings()
    ensures Prefix(Prepare) == FreeFunction("DSQL_prepare")
    ensures Prefix(Execute) == FreeFunction("DSQL_execute")
    ensures Prefix(ExecuteImmediate) == FreeFunction("DSQL_execute_immediate")
    ensures Prefix(OpenCursor) == MemberFunction("Jrd", "DsqlDmlRequest", "openCursor")
    ensures Prefix(FetchNext) == MemberFunction("Jrd", "DsqlCursor", "fetchNext")
  {
    hide *;
    Decimals();
    FreeIs("DSQL_prepare", "12");
    FreeIs("DSQL_execute", "12");
    FreeIs("DSQL_execute_immediate", "22");
    MemberIs("DsqlDmlRequest", "openCursor", "14", "10");
    MemberIs("DsqlCursor", "fetchNext", "10", "9");
    PrepareSpelled();
    ExecuteSpelled();
    ExecuteImmediateSpelled();
    OpenCursorSpelled();
    FetchNextSpelled();
  }

  lemma EndsWithWhatIsAppended(s: string, suffix: string)
    ensures EndsWith(s + suffix, suffix)
  {
    assert (s + suffix)[|s|..] == suffix;
  }

  lemma InSuffix(s: string, suffix: string, i: nat)
    requires i < |s| <= i + |suffix|
    ensures EndsWith(s, suffix) ==> s[i] in suffix
  {
    if |suffix| <= |s| {
      assert s[|s| - |suffix|..][i - (|s| - |suffix|)] == s[i];
    }
  }

  /** A suffix that does not contain the last character of s lies past s. */
  lemma SuffixLiesPast(s: string, t: string, suffix: string)
    requires |s| > 0 && s[|s| - 1] !in suffix
    ensures EndsWith(s + t, suffix) <==> EndsWith(t, suffix)
  {
    var whole := s + t;
    if |suffix| <= |t| {
      assert whole[|whole| - |suffix|..] == t[|t| - |suffix|..];
    } else if |suffix| <= |whole| {
      InSuffix(whole, suffix, |s| - 1);
    }
  }

  lemma LastOfPrefix(t: Target)
    ensures var p := Prefix(t); |p| > 0 && p[|p| - 1] !in ".cold"
  {
  }

  /** A function's symbol, whatever its parameters, is looked at; its cold clone, a
      symbol that is not text, and one whose name does not decode are not. */
  lemma ColdClonesAreIgnored(t: Target, parameters: string, address: u64)
    ensures !Matches(Symbol(true, Some(Prefix(t) + parameters + ".cold"), address), t)
    ensures !Matches(Symbol(false, Some(Prefix(t) + parameters), address), t)
    ensures !Matches(Symbol(true, None, address), t)
    ensures Matches(Symbol(true, Some(Prefix(t) + parameters), address), t)
            <==> !(|parameters| >= 5 && parameters[|parameters| - 5..] == ".cold")
  {
    LastOfPrefix(t);
    hide Prefix;
    EndsWithWhatIsAppended(Prefix(t) + parameters, ".cold");
    SuffixLiesPast(Prefix(t), parameters, ".cold");
    assert EndsWith(parameters, ".cold") <==> |parameters| >= 5 && parameters[|parameters| - 5..] == ".cold";
    hide EndsWith;
  }

  /** So the order of the else-if chain is irrelevant. */
  lemma DispatchIsMatching(s: Symbol, t: Target)
    ensures Dispatch(s) == Some(t) <==> Matches(s, t)
  {
    if Matches(s, t) && Dispatch(s).Some? {
      PrefixesAreIncomparable(t, Dispatch(s).value, s.name.value);
    }
    hide Prefix;
  }

  /** The distinct addresses of a target's matching symbols. */
  function Addresses(syms: seq<Symbol>, t: Target): set<u64> {
    set s | s in syms && Matches(s, t) :: s.address
  }

  ghost predicate OneAddress(syms: seq<Symbol>, t: Target) {
    exists a :: Addresses(syms, t) == {a}
  }

  ghost predicate ManyAddresses(syms: seq<Symbol>, t: Target) {
    exists a, b :: a in Addresses(syms, t) && b in Addresses(syms, t) && a != b
  }

  /** The order in which absences are reported. */
  function Rank(t: Target): nat {
    match t
    case Prepare => 0
    case Execute => 1
    case ExecuteImmediate => 2
    case OpenCursor => 3
    case FetchNext => 4
  }

  ghost predicate NoConflict(syms: seq<Symbol>) { forall t :: !ManyAddresses(syms, t) }

  /** Symbol n is the first to give some target a second address, and gives t one. */
  ghost predicate FirstConflict(syms: seq<Symbol>, n: nat, t: Target)
    requires n < |syms|
  {
    NoConflict(syms[..n]) && ManyAddresses(syms[..n + 1], t)
  }

  /** What a resolution promises: success exactly when every target has exactly
      one address, and then those addresses; on a conflict, the target of the first
      one in the table; otherwise the first target without an address. */
  ghost predicate Resolves(syms: seq<Symbol>, r: Result<Offsets, Error>) {
    && (r.Ok? <==> forall t :: OneAddress(syms, t))
    && (r.Ok? ==> forall t :: Addresses(syms, t) == {OffsetOf(r.value, t)})
    && (r.Err? && r.error.Conflict? ==>
          ManyAddresses(syms, r.error.target) && exists n: nat | n < |syms| :: FirstConflict(syms, n, r.error.target))
    && (r.Err? && r.error.NotFound? ==>
          && Addresses(syms, r.error.target) == {} && NoConflict(syms)
          && forall t :: Rank(t) < Rank(r.error.target) ==> OneAddress(syms, t))
  }

  /** `check_unique`: fill an empty slot, accept a repeat, refuse a conflict. */
  method CheckUnique(slot: Option<u64>, address: u64) returns (ok: bool, slot': Option<u64>)
    ensures ok <==> slot == None || slot == Some(address)
    ensures slot' == if slot.None? then Some(address) else slot
  {
    ok, slot' := true, slot;
    if slot.Some? {
      if slot.value != address { ok := false; }
    } else {
      slot' := Some(address);
    }
  }

  /** The slot of t after scanning `syms` without a conflict. */
  ghost predicate SlotFor(syms: seq<Symbol>, t: Target, slot: Option<u64>) {
    Addresses(syms, t) == if slot.None? then {} else {slot.value}
  }

  lemma AddressesSnoc(syms: seq<Symbol>, n: nat, t: Target)
    requires n < |syms|
    ensures Addresses(syms[..n + 1], t)
            == Addresses(syms[..n], t) + if Dispatch(syms[n]) == Some(t) then {syms[n].address} else {}
  {
    DispatchIsMatching(syms[n], t);
    hide Dispatch, Matches;
    assert syms[..n + 1] == syms[..n] + [syms[n]];
    var before := syms[..n];
    assert forall s :: s in syms[..n + 1] <==> s in before || s == syms[n];
  }

  lemma ConflictPersists(syms: seq<Symbol>, n: nat, t: Target)
    requires n <= |syms| && ManyAddresses(syms[..n], t)
    ensures ManyAddresses(syms, t) && !OneAddress(syms, t)
  {
    hide Matches;
    var a, b :| a in Addresses(syms[..n], t) && b in Addresses(syms[..n], t) && a != b;
    assert forall s :: s in syms[..n] ==> s in syms;
    assert a in Addresses(syms, t) && b in Addresses(syms, t);
    hide Addresses;
  }

  lemma ConflictResolves(syms: seq<Symbol>, n: nat, t: Target)
    requires n < |syms| && NoConflict(syms[..n]) && ManyAddresses(syms[..n + 1], t)
    ensures Resolves(syms, Err(Conflict(t)))
  {
    ConflictPersists(syms, n + 1, t);
    hide ManyAddresses, OneAddress, NoConflict;
    assert FirstConflict(syms, n, t);
  }

  /** What one more symbol does to one slot. */
  lemma SlotStep(syms: seq<Symbol>, n: nat, t: Target, slot: Option<u64>)
    requires n < |syms| && SlotFor(syms[..n], t, slot)
    ensures Dispatch(syms[n]) != Some(t) ==> SlotFor(syms[..n + 1], t, slot)
    ensures Dispatch(syms[n]) == Some(t) && (slot == None || slot == Some(syms[n].address)) ==>
              SlotFor(syms[..n + 1], t, Some(syms[n].address))
    ensures Dispatch(syms[n]) == Some(t) && slot.Some? && slot.value != syms[n].address ==>
              ManyAddresses(syms[..n + 1], t)
  {
    AddressesSnoc(syms, n, t);
    hide Addresses, Dispatch;
    if Dispatch(syms[n]) == Some(t) && slot.Some? && slot.value != syms[n].address {
      assert slot.value in Addresses(syms[..n + 1], t) && syms[n].address in Addresses(syms[..n + 1], t);
    }
  }

  lemma EarlierFound(syms: seq<Symbol>, t: Target)
    requires Rank(t) > 0 ==> OneAddress(syms, Prepare)
    requires Rank(t) > 1 ==> OneAddress(syms, Execute)
    requires Rank(t) > 2 ==> OneAddress(syms, ExecuteImmediate)
    requires Rank(t) > 3 ==> OneAddress(syms, OpenCursor)
    ensures forall u :: Rank(u) < Rank(t) ==> OneAddress(syms, u)
  {
    hide OneAddress;
    forall u | Rank(u) < Rank(t) ensures OneAddress(syms, u) {
      match u case Prepare => case Execute => case ExecuteImmediate => case OpenCursor => case FetchNext =>
    }
  }

  lemma MissingResolves(syms: seq<Symbol>, t: Target)
    requires Addresses(syms, t) == {} && NoConflict(syms)
    requires Rank(t) > 0 ==> OneAddress(syms, Prepare)
    requires Rank(t) > 1 ==> OneAddress(syms, Execute)
    requires Rank(t) > 2 ==> OneAddress(syms, ExecuteImmediate)
    requires Rank(t) > 3 ==> OneAddress(syms, OpenCursor)
    ensures Resolves(syms, Err(NotFound(t)))
  {
    EarlierFound(syms, t);
    hide Addresses, ManyAddresses, NoConflict, Rank;
    assert !OneAddress(syms, t) by {
      forall c ensures Addresses(syms, t) != {c} { assert c !in Addresses(syms, t); }
    }
  }

  lemma FoundResolves(syms: seq<Symbol>, o: Offsets)
    requires Addresses(syms, Prepare) == {o.prepare} && Addresses(syms, Execute) == {o.execute}
    requires Addresses(syms, ExecuteImmediate) == {o.executeImmediate}
    requires Addresses(syms, OpenCursor) == {o.openCursor} && Addresses(syms, FetchNext) == {o.fetchNext}
    ensures Resolves(syms, Ok(o))
  {
    hide Addresses, ManyAddresses;
    forall t ensures Addresses(syms, t) == {OffsetOf(o, t)} && OneAddress(syms, t) {
      match t case Prepare => case Execute => case ExecuteImmediate => case OpenCursor => case FetchNext =>
    }
    hide OneAddress;
  }

  ghost predicate SlotMeans(syms: seq<Symbol>, t: Target, slot: Option<u64>) {
    if slot.Some? then Addresses(syms, t) == {slot.value} && OneAddress(syms, t) else Addresses(syms, t) == {}
  }

  /** Slots filled without a conflict: no target has two addresses, and a full
      slot means exactly one. */
  lemma SlotsMean(syms: seq<Symbol>, prepare: Option<u64>, execute: Option<u64>, executeImmediate: Option<u64>,
                  openCursor: Option<u64>, fetchNext: Option<u64>)
    requires SlotFor(syms, Prepare, prepare) && SlotFor(syms, Execute, execute)
    requires SlotFor(syms, ExecuteImmediate, executeImmediate)
    requires SlotFor(syms, OpenCursor, openCursor) && SlotFor(syms, FetchNext, fetchNext)
    ensures NoConflict(syms)
    ensures SlotMeans(syms, Prepare, prepare) && SlotMeans(syms, Execute, execute)
    ensures SlotMeans(syms, ExecuteImmediate, executeImmediate)
    ensures SlotMeans(syms, OpenCursor, openCursor) && SlotMeans(syms, FetchNext, fetchNext)
  {
    hide Addresses;
    forall t ensures !ManyAddresses(syms, t) {
      match t case Prepare => case Execute => case ExecuteImmediate => case OpenCursor => case FetchNext =>
    }
  }

  /** The slots before that of t are full, those given here. */
  lemma Missing(syms: seq<Symbol>, t: Target, prepare: Option<u64>, execute: Option<u64>,
                executeImmediate: Option<u64>, openCursor: Option<u64>)
    requires NoConflict(syms) && SlotMeans(syms, t, None)
    requires match t
             case Prepare => true
             case Execute => prepare.Some? && SlotMeans(syms, Prepare, prepare)
             case ExecuteImmediate =>
               prepare.Some? && SlotMeans(syms, Prepare, prepare) && execute.Some? && SlotMeans(syms, Execute, execute)
             case OpenCursor =>
               && prepare.Some? && SlotMeans(syms, Prepare, prepare)
               && execute.Some? && SlotMeans(syms, Execute, execute)
               && executeImmediate.Some? && SlotMeans(syms, ExecuteImmediate, executeImmediate)
             case FetchNext =>
               && prepare.Some? && SlotMeans(syms, Prepare, prepare)
               && execute.Some? && SlotMeans(syms, Execute, execute)
               && executeImmediate.Some? && SlotMeans(syms, ExecuteImmediate, executeImmediate)
               && openCursor.Some? && SlotMeans(syms, OpenCursor, openCursor)
    ensures Resolves(syms, Err(NotFound(t)))
  {
    hide Addresses, OneAddress, NoConflict, Resolves;
    MissingResolves(syms, t);
  }

  lemma Found(syms: seq<Symbol>, prepare: Option<u64>, execute: Option<u64>, executeImmediate: Option<u64>,
              openCursor: Option<u64>, fetchNext: Option<u64>)
    requires prepare.Some? && SlotMeans(syms, Prepare, prepare) && execute.Some? && SlotMeans(syms, Execute, execute)
    requires executeImmediate.Some? && SlotMeans(syms, ExecuteImmediate, executeImmediate)
    requires openCursor.Some? && SlotMeans(syms, OpenCursor, openCursor)
    requires fetchNext.Some? && SlotMeans(syms, FetchNext, fetchNext)
    ensures Resolves(syms, Ok(Offsets(prepare.value, execute.value, executeImmediate.value, openCursor.value,
                                      fetchNext.value)))
  {
    hide Addresses, OneAddress, Resolves;
    FoundResolves(syms, Offsets(prepare.value, execute.value, executeImmediate.value, openCursor.value,
                                fetchNext.value));
  }

  /** The chain of `ok_or_else` that ends the resolver. */
  method Finish(ghost syms: seq<Symbol>, prepare: Option<u64>, execute: Option<u64>, executeImmediate: Option<u64>,
                openCursor: Option<u64>, fetchNext: Option<u64>) returns (r: Result<Offsets, Error>)
    requires SlotFor(syms, Prepare, prepare) && SlotFor(syms, Execute, execute)
    requires SlotFor(syms, ExecuteImmediate, executeImmediate)
    requires SlotFor(syms, OpenCursor, openCursor) && SlotFor(syms, FetchNext, fetchNext)
    ensures Resolves(syms, r)
  {
    hide *;
    SlotsMean(syms, prepare, execute, executeImmediate, openCursor, fetchNext);
    if prepare.None? { Missing(syms, Prepare, None, None, None, None); return Err(NotFound(Prepare)); }
    if execute.None? { Missing(syms, Execute, prepare, None, None, None); return Err(NotFound(Execute)); }
    if executeImmediate.None? {
      Missing(syms, ExecuteImmediate, prepare, execute, None, None);
      return Err(NotFound(ExecuteImmediate));
    }
    if openCursor.None? {
      Missing(syms, OpenCursor, prepare, execute, executeImmediate, None);
      return Err(NotFound(OpenCursor));
    }
    if fetchNext.None? {
      Missing(syms, FetchNext, prepare, execute, executeImmediate, openCursor);
      return Err(NotFound(FetchNext));
    }
    r := Ok(Offsets(prepare.value, execute.value, executeImmediate.value, openCursor.value, fetchNext.value));
    Found(syms, prepare, execute, executeImmediate, openCursor, fetchNext);
  }

  lemma NothingScanned()
    ensures forall t :: SlotFor([], t, None)
  {
  }

  /** The resolution loop: five mutable slots, stopping at the first conflict. */
  method Resolve(syms: seq<Symbol>) returns (r: Result<Offsets, Error>)
    ensures Resolves(syms, r)
  {
    hide *;
    var prepare, execute, executeImmediate, openCursor, fetchNext: Option<u64> := None, None, None, None, None;
    assert syms[..0] == [];
    NothingScanned();
    for n := 0 to |syms|
      invariant SlotFor(syms[..n], Prepare, prepare) && SlotFor(syms[..n], Execute, execute)
      invariant SlotFor(syms[..n], ExecuteImmediate, executeImmediate)
      invariant SlotFor(syms[..n], OpenCursor, openCursor) && SlotFor(syms[..n], FetchNext, fetchNext)
    {
      SlotsMean(syms[..n], prepare, execute, executeImmediate, openCursor, fetchNext);
      SlotStep(syms, n, Prepare, prepare);
      SlotStep(syms, n, Execute, execute);
      SlotStep(syms, n, ExecuteImmediate, executeImmediate);
      SlotStep(syms, n, OpenCursor, openCursor);
      SlotStep(syms, n, FetchNext, fetchNext);
      var target := Dispatch(syms[n]);
      if target.None? { continue; }
      var ok;
      match target.value {
        case Prepare => ok, prepare := CheckUnique(prepare, syms[n].address);
        case ExecuteImmediate => ok, executeImmediate := CheckUnique(executeImmediate, syms[n].address);
        case Execute => ok, execute := CheckUnique(execute, syms[n].address);
        case OpenCursor => ok, openCursor := CheckUnique(openCursor, syms[n].address);
        case FetchNext => ok, fetchNext := CheckUnique(fetchNext, syms[n].address);
      }
      if !ok {
        ConflictResolves(syms, n, target.value);
        return Err(Conflict(target.value));
      }
    }
    assert syms[..|syms|] == syms;
    r := Finish(syms, prepare, execute, executeImmediate, openCursor, fetchNext);
  }

  /** A successful resolution gives each probe its own function's address. */
  lemma ResolvedOffsets(syms: seq<Symbol>, o: Offsets)
    requires Resolves(syms, Ok(o))
    ensures Addresses(syms, Prepare) == {o.prepare} && Addresses(syms, Execute) == {o.execute}
    ensures Addresses(syms, ExecuteImmediate) == {o.executeImmediate}
    ensures Addresses(syms, OpenCursor) == {o.openCursor} && Addresses(syms, FetchNext) == {o.fetchNext}
  {
    hide Addresses, OneAddress, ManyAddresses;
    assert Addresses(syms, Prepare) == {OffsetOf(o, Prepare)} && Addresses(syms, Execute) == {OffsetOf(o, Execute)};
    assert Addresses(syms, ExecuteImmediate) == {OffsetOf(o, ExecuteImmediate)};
    assert Addresses(syms, OpenCursor) == {OffsetOf(o, OpenCursor)};
    assert Addresses(syms, FetchNext) == {OffsetOf(o, FetchNext)};
  }

  lemma SameAddresses(x: seq<Symbol>, y: seq<Symbol>, t: Target)
    requires multiset(x) == multiset(y)
    ensures Addresses(x, t) == Addresses(y, t)
  {
    assert forall s :: s in x <==> s in multiset(x);
    assert forall s :: s in y <==> s in multiset(y);
  }

  /** Main result. Whether resolution succeeds, and with what, is the same for
      every order of the symbol table. */
  lemma ResolutionIsOrderIndependent(x: seq<Symbol>, y: seq<Symbol>,
                                     r: Result<Offsets, Error>, q: Result<Offsets, Error>)
    requires multiset(x) == multiset(y) && Resolves(x, r) && Resolves(y, q)
    ensures r.Ok? <==> q.Ok?
    ensures r.Ok? ==> r == q
  {
    hide Addresses, ManyAddresses;
    forall t ensures Addresses(x, t) == Addresses(y, t) && (OneAddress(x, t) <==> OneAddress(y, t)) {
      SameAddresses(x, y, t);
    }
    if r.Ok? {
      forall t ensures OffsetOf(r.value, t) == OffsetOf(q.value, t) {
        assert {OffsetOf(r.value, t)} == {OffsetOf(q.value, t)};
        assert OffsetOf(r.value, t) in {OffsetOf(q.value, t)};
      }
      assert r.value == Offsets(OffsetOf(q.value, Prepare), OffsetOf(q.value, Execute),
                                OffsetOf(q.value, ExecuteImmediate),
                                OffsetOf(q.value, OpenCursor), OffsetOf(q.value, FetchNext));
    }
  }
}
