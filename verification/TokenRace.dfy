/** Token provisioning: any number of reconciles of one Heartbeat, with arbitrarily stale reads,
    against create-if-absent and update-if-unmodified Secret writes. */
module TokenRace {
  import opened Common
  import opened Text

  datatype Secret = Secret(token: string, url: string)

  datatype Phase =
    | Idle
    | Minted(minted: string)
    | Mutating(minted: string, version: nat)
    | Returned(token: string)
    | Failed

  /** `history` holds every value the Secret has had at the API server, `None` while absent; the
      index is its resource version. `given` lists every token ever returned. */
  datatype State = State(history: seq<Option<Secret>>, procs: seq<Phase>, given: seq<string>)

  datatype Action =
    | FirstRead(i: nat, version: nat, minted: string)
    | SecondRead(i: nat, version: nat)
    | Commit(i: nat, noChange: bool, reported: bool)
    | Fail(i: nat)
    | Again(i: nat)
    | SyncUrl(token: string)

  function Stored(v: Option<Secret>): string {
    if v.Some? then TrimSpace(v.value.token) else ""
  }

  function Current(s: State): Option<Secret>
    requires s.history != []
  {
    s.history[|s.history| - 1]
  }

  /** A freshly minted token: not blank, nothing to trim. */
  predicate Mintable(t: string) {
    t != "" && TrimSpace(t) == t
  }

  /** What the mutate function leaves in the Secret it was given, and the token it settles on. */
  function Mutate(seen: Option<Secret>, minted: string, url: string -> string): (Secret, string) {
    if Stored(seen) != "" then
      (Secret(seen.value.token, url(Stored(seen))), Stored(seen))
    else
      (Secret(minted, url(minted)), minted)
  }

  predicate Enabled(s: State, a: Action, url: string -> string) {
    match a
    case FirstRead(i, v, minted) => i < |s.procs| && s.procs[i].Idle? && v < |s.history| && Mintable(minted)
    case SecondRead(i, v) => i < |s.procs| && s.procs[i].Minted? && v < |s.history|
    case Commit(i, noChange, _) =>
      && i < |s.procs| && s.procs[i].Mutating? && s.procs[i].version < |s.history|
      && var seen := s.history[s.procs[i].version];
         noChange ==> seen.Some? && Mutate(seen, s.procs[i].minted, url).0 == seen.value
    case Fail(i) => i < |s.procs|
    case Again(i) => i < |s.procs| && (s.procs[i].Returned? || s.procs[i].Failed?)
    case SyncUrl(t) => t in s.given && s.history != [] && Current(s).Some?
  }

  function Return(s: State, i: nat, token: string): State
    requires i < |s.procs|
  {
    s.(procs := s.procs[i := Returned(token)], given := s.given + [token])
  }

  function Next(s: State, a: Action, url: string -> string): State
    requires Enabled(s, a, url)
  {
    match a
    case FirstRead(i, v, minted) =>
      if Stored(s.history[v]) != "" then Return(s, i, Stored(s.history[v]))
      else s.(procs := s.procs[i := Minted(minted)])
    case SecondRead(i, v) => s.(procs := s.procs[i := Mutating(s.procs[i].minted, v)])
    case Commit(i, noChange, reported) =>
      var p := s.procs[i];
      var seen := s.history[p.version];
      var (secret, token) := Mutate(seen, p.minted, url);
      if noChange then
        Return(s, i, token)
      else if (if seen.None? then Current(s).None? else p.version == |s.history| - 1) then
        // Created because absent, or updated because nobody wrote since the read.
        var s' := s.(history := s.history + [Some(secret)]);
        if reported then Return(s', i, token) else s'.(procs := s.procs[i := Failed])
      else
        // AlreadyExists or Conflict.
        s.(procs := s.procs[i := Failed])
    case Fail(i) => s.(procs := s.procs[i := Failed])
    case Again(i) => s.(procs := s.procs[i := Idle])
    case SyncUrl(t) => s.(history := s.history + [Some(Current(s).value.(url := url(t)))])
  }

  /** `n` reconciles about to start, whatever the Secret holds. */
  function Initial(n: nat, secret: Option<Secret>): State {
    State([secret], seq(n, _ => Idle), [])
  }

  ghost predicate Reachable(s0: State, run: seq<Action>, url: string -> string, s: State)
    decreases |run|
  {
    if run == [] then s == s0
    else Enabled(s0, run[0], url) && Reachable(Next(s0, run[0], url), run[1..], url, s)
  }

  /** Every value written names its own token in its URL. */
  ghost predicate UrlsMatch(history: seq<Option<Secret>>, url: string -> string) {
    forall i | 0 < i < |history| :: history[i].Some? && history[i].value.url == url(Stored(history[i]))
  }

  /** Once the Secret holds a token it holds that token forever. */
  ghost predicate Settled(history: seq<Option<Secret>>) {
    forall i, j | 0 <= i <= j < |history| :: Stored(history[i]) != "" ==> Stored(history[j]) == Stored(history[i])
  }

  ghost predicate Inv(s: State, url: string -> string) {
    && s.history != []
    && UrlsMatch(s.history, url)
    && Settled(s.history)
    && (forall t :: t in s.given ==> t != "" && t == Stored(Current(s)))
    && forall i | 0 <= i < |s.procs| ::
         match s.procs[i] {
           case Minted(t) => Mintable(t)
           case Mutating(t, v) => Mintable(t) && v < |s.history|
           case _ => true
         }
  }

  /** A write that keeps the current token, or writes where there was none, keeps the history settled. */
  lemma AppendKeepsInv(s: State, secret: Secret, url: string -> string)
    requires Inv(s, url)
    requires Stored(Current(s)) != "" ==> Stored(Some(secret)) == Stored(Current(s))
    requires secret.url == url(Stored(Some(secret)))
    ensures Inv(s.(history := s.history + [Some(secret)]), url)
  {}

  lemma CommitKeepsInv(s: State, a: Action, url: string -> string)
    requires a.Commit? && Inv(s, url) && Enabled(s, a, url)
    ensures Inv(Next(s, a, url), url)
  {
    var p := s.procs[a.i];
    var seen := s.history[p.version];
    assert Mintable(p.minted);
    assert Stored(seen) != "" ==> Stored(Current(s)) == Stored(seen);
    if !a.noChange && (if seen.None? then Current(s).None? else p.version == |s.history| - 1) {
      AppendKeepsInv(s, Mutate(seen, p.minted, url).0, url);
    }
  }

  lemma StepKeepsInv(s: State, a: Action, url: string -> string)
    requires Inv(s, url) && Enabled(s, a, url)
    ensures Inv(Next(s, a, url), url)
  {
    match a
    case FirstRead(i, v, minted) =>
    case SecondRead(i, v) =>
    case Commit(i, noChange, reported) => CommitKeepsInv(s, a, url);
    case Fail(i) =>
    case Again(i) =>
    case SyncUrl(t) =>
      AppendKeepsInv(s, Current(s).value.(url := url(t)), url);
  }

  lemma {:induction false} RunKeepsInv(s0: State, run: seq<Action>, url: string -> string, s: State)
    requires Inv(s0, url) && Reachable(s0, run, url, s)
    ensures Inv(s, url)
    decreases |run|
  {
    if run != [] {
      StepKeepsInv(s0, run[0], url);
      RunKeepsInv(Next(s0, run[0], url), run[1..], url, s);
    }
  }

  /** Over every interleaving: at most one token value is ever stored, every token ever returned is
      the one that is stored, and the Secret's URL is always the stored token's. */
  lemma RacingReconcilesAgree(n: nat, secret: Option<Secret>, run: seq<Action>, url: string -> string, s: State)
    requires Reachable(Initial(n, secret), run, url, s)
    ensures forall i, j | 0 <= i < |s.history| && 0 <= j < |s.history| ::
              Stored(s.history[i]) != "" && Stored(s.history[j]) != "" ==> Stored(s.history[i]) == Stored(s.history[j])
    ensures s.history != [] && forall t :: t in s.given ==> t != "" && t == Stored(Current(s))
    ensures UrlsMatch(s.history, url)
  {
    RunKeepsInv(Initial(n, secret), run, url, s);
    forall i, j | 0 <= i < |s.history| && 0 <= j < |s.history|
      ensures Stored(s.history[i]) != "" && Stored(s.history[j]) != "" ==> Stored(s.history[i]) == Stored(s.history[j])
    {
      if i > j {
        assert Stored(s.history[j]) != "" ==> Stored(s.history[i]) == Stored(s.history[j]);
      }
    }
  }

  // ----- and every Heartbeat gets its token

  /** The Secret is there and its token is not blank. */
  ghost predicate HasToken(v: Option<Secret>) {
    v.Some? && !All(v.value.token, IsSpace)
  }

  lemma HasTokenIff(v: Option<Secret>)
    ensures HasToken(v) <==> Stored(v) != ""
  {
    if v.Some? {
      TrimToNothing(v.value.token, IsSpace);
    }
  }

  /** Where the Secret has a token, one fresh read is enough: the token comes back, trimmed. */
  lemma StoredTokenComesBack(s: State, i: nat, url: string -> string, t: string)
    requires i < |s.procs| && s.procs[i].Idle? && Mintable(t) && s.history != [] && HasToken(Current(s))
    ensures var read := FirstRead(i, |s.history| - 1, t);
            Enabled(s, read, url) &&
            var s' := Next(s, read, url);
            s'.history == s.history && s'.procs[i] == Returned(TrimSpace(Current(s).value.token))
  {
    HasTokenIff(Current(s));
  }

  /** A fresh read of an absent or blank Secret goes on to mint. */
  lemma MissingTokenIsMinted(s: State, i: nat, url: string -> string, t: string)
    requires i < |s.procs| && s.procs[i].Idle? && Mintable(t) && s.history != [] && !HasToken(Current(s))
    ensures Enabled(s, FirstRead(i, |s.history| - 1, t), url)
    ensures Next(s, FirstRead(i, |s.history| - 1, t), url) == s.(procs := s.procs[i := Minted(t)])
  {
    HasTokenIff(Current(s));
  }

  /** The rest of it: the minted token is stored with its URL, and comes back. */
  lemma MintedTokenIsStored(s: State, i: nat, url: string -> string, t: string)
    requires i < |s.procs| && s.procs[i] == Minted(t) && s.history != [] && !HasToken(Current(s))
    ensures var v := |s.history| - 1;
            Enabled(s, SecondRead(i, v), url) &&
            var s1 := Next(s, SecondRead(i, v), url);
            Enabled(s1, Commit(i, false, true), url) &&
            var s2 := Next(s1, Commit(i, false, true), url);
            s2.history == s.history + [Some(Secret(t, url(t)))] && s2.procs[i] == Returned(t)
  {
    HasTokenIff(Current(s));
  }

  /** The states of a reconcile of `i` that runs alone, with fresh reads and a reported commit. */
  ghost predicate Alone(s: State, s1: State, s2: State, s3: State, i: nat, t: string, url: string -> string) {
    && s.history != [] && s1.history != []
    && Enabled(s, FirstRead(i, |s.history| - 1, t), url) && s1 == Next(s, FirstRead(i, |s.history| - 1, t), url)
    && Enabled(s1, SecondRead(i, |s1.history| - 1), url) && s2 == Next(s1, SecondRead(i, |s1.history| - 1), url)
    && Enabled(s2, Commit(i, false, true), url) && s3 == Next(s2, Commit(i, false, true), url)
  }

  /** From every state without a token in the Secret, absent or blank, a reconcile that runs alone can
      read, read again and commit, and the token it minted is then stored with its URL and comes
      back. */
  lemma SoloReconcile(s: State, i: nat, url: string -> string, t: string)
    requires i < |s.procs| && s.procs[i].Idle? && Mintable(t) && s.history != [] && !HasToken(Current(s))
    ensures exists s1, s2, s3 ::
              && Alone(s, s1, s2, s3, i, t, url)
              && s3.history == s.history + [Some(Secret(t, url(t)))] && s3.procs[i] == Returned(t)
              && Stored(Current(s3)) == t
  {
    MissingTokenIsMinted(s, i, url, t);
    var s1 := Next(s, FirstRead(i, |s.history| - 1, t), url);
    MintedTokenIsStored(s1, i, url, t);
    var s2 := Next(s1, SecondRead(i, |s1.history| - 1), url);
    var s3 := Next(s2, Commit(i, false, true), url);
    assert Alone(s, s1, s2, s3, i, t, url);
  }

  /** Of the commits that race on an absent Secret, the first one writes its token. */
  lemma FirstCommitWrites(s: State, i: nat, reported: bool, url: string -> string)
    requires s.history != [] && Current(s).None?
    requires i < |s.procs| && s.procs[i].Mutating? && s.procs[i].version < |s.history|
    requires s.history[s.procs[i].version].None?
    ensures Enabled(s, Commit(i, false, reported), url)
    ensures var t, s' := s.procs[i].minted, Next(s, Commit(i, false, reported), url);
            && s'.history == s.history + [Some(Secret(t, url(t)))]
            && s'.procs[i] == if reported then Returned(t) else Failed
  {}

  /** Every commit that read the Secret before its latest write, or before it existed, fails and
      leaves it alone. */
  lemma StaleCommitFails(s: State, i: nat, reported: bool, url: string -> string)
    requires s.history != [] && Current(s).Some?
    requires i < |s.procs| && s.procs[i].Mutating? && s.procs[i].version < |s.history| - 1
    ensures Enabled(s, Commit(i, false, reported), url)
    ensures Next(s, Commit(i, false, reported), url) == s.(procs := s.procs[i := Failed])
  {}

  /** Patching the URL makes the Secret's URL that of its token, whatever it was, and keeps the token. */
  lemma SyncUrlHeals(n: nat, secret: Option<Secret>, run: seq<Action>, url: string -> string, s: State, t: string)
    requires Reachable(Initial(n, secret), run, url, s) && t in s.given
    ensures Enabled(s, SyncUrl(t), url)
    ensures var s' := Next(s, SyncUrl(t), url);
            && s'.history != [] && Current(s').Some? && Current(s').value.token == Current(s).value.token
            && Current(s').value.url == url(TrimSpace(Current(s').value.token))
  {
    RunKeepsInv(Initial(n, secret), run, url, s);
  }
}
