/**
 * The stored hooks record `wg0` and the two startup steps that rewrite it:
 * `overrideHooksFromFiles` (merge the hook files into the record, writing
 * only on a difference) and `disableIpv6` (cut the ip6tables rules out of the
 * post-up and post-down scripts). The database is one in-memory record with
 * counters of lookups and writes; a raised error rolls the transaction back,
 * which here means the record is left as it was.
 */
module HookStore {
  import opened Wrappers
  import opened JsText
  import opened HookFiles

  /** The hooks row: scripts run around bringing the interface up and down. */
  datatype Hooks = Hooks(preUp: string, postUp: string, preDown: string, postDown: string)

  /** What a reconciliation or the IPv6 step can raise. */
  datatype HookError = ReadFailed(code: string) | HooksNotFound

  /** `opts?: { allowEmptyOverwrite?: boolean }`. */
  datatype OverrideOptions = OverrideOptions(allowEmptyOverwrite: Option<bool>)

  /** `!!opts?.allowEmptyOverwrite`: only an explicit `true` allows an empty file to win. */
  function AllowEmptyOverwrite(opts: Option<OverrideOptions>): (allow: bool)
    ensures allow <==> opts == Some(OverrideOptions(Some(true)))
  {
    match opts
    case None => false
    case Some(o) => o.allowEmptyOverwrite == Some(true)
  }

  /** The options `connect` passes on every startup. */
  const StartupOptions: Option<OverrideOptions> := Some(OverrideOptions(Some(false)))

  /**
   * The candidate value of one post hook: an absent file keeps the stored
   * value; an empty file keeps it too unless empty overwrites are allowed;
   * otherwise the file's text wins.
   */
  function MergeField(file: FileState, stored: string, allowEmpty: bool): (r: string)
    ensures file.Absent? ==> r == stored
    ensures file.Present? && file.text == "" && !allowEmpty ==> r == stored
    ensures file.Present? && (file.text != "" || allowEmpty) ==> r == file.text
    ensures !allowEmpty && stored != "" ==> r != ""
  {
    match file
    case Absent => stored
    case Present(text) => if text == "" && !allowEmpty then stored else text
  }

  /** `updatedHooks`: pre hooks carried through, each post hook merged from its own file only. */
  function Merge(h: Hooks, up: FileState, down: FileState, allowEmpty: bool): (r: Hooks)
    ensures r.preUp == h.preUp && r.preDown == h.preDown
    ensures r.postUp == MergeField(up, h.postUp, allowEmpty)
    ensures r.postDown == MergeField(down, h.postDown, allowEmpty)
  {
    h.(postUp := MergeField(up, h.postUp, allowEmpty), postDown := MergeField(down, h.postDown, allowEmpty))
  }

  /** A field whose file leaves the stored value as it is. */
  predicate Agrees(file: FileState, stored: string, allowEmpty: bool) {
    file.Absent? || file.text == stored || (file.text == "" && !allowEmpty)
  }

  /** The write is skipped exactly when both files agree with what is stored. */
  lemma UnchangedExactly(h: Hooks, up: FileState, down: FileState, allowEmpty: bool)
    ensures Merge(h, up, down, allowEmpty) == h <==> Agrees(up, h.postUp, allowEmpty) && Agrees(down, h.postDown, allowEmpty)
  {
  }

  /** Merging the same files into a merged record changes nothing: a second run writes nothing. */
  lemma MergeIdempotent(h: Hooks, up: FileState, down: FileState, allowEmpty: bool)
    ensures var m := Merge(h, up, down, allowEmpty); Merge(m, up, down, allowEmpty) == m
  {
  }

  /** With the startup options no configured post hook is ever blanked. */
  lemma StartupNeverBlanks(h: Hooks, up: FileState, down: FileState)
    ensures var m := Merge(h, up, down, AllowEmptyOverwrite(StartupOptions));
      (h.postUp != "" ==> m.postUp != "") && (h.postDown != "" ==> m.postDown != "")
  {
  }

  /** `postUpMatch`: the IPv6 rules of the initial post-up script. */
  const PostUpMatch := " ip6tables -t nat -A POSTROUTING -s {{ipv6Cidr}} -o {{device}} -j MASQUERADE; ip6tables -A INPUT -p udp -m udp --dport {{port}} -j ACCEPT; ip6tables -A FORWARD -i wg0 -j ACCEPT; ip6tables -A FORWARD -o wg0 -j ACCEPT;"

  /** `postDownMatch`: the IPv6 rules of the initial post-down script. */
  const PostDownMatch := " ip6tables -t nat -D POSTROUTING -s {{ipv6Cidr}} -o {{device}} -j MASQUERADE; ip6tables -D INPUT -p udp -m udp --dport {{port}} -j ACCEPT; ip6tables -D FORWARD -i wg0 -j ACCEPT; ip6tables -D FORWARD -o wg0 -j ACCEPT;"

  /** The record `disableIpv6` writes: the first occurrence of each match removed. */
  function StripIpv6(h: Hooks): (r: Hooks)
    ensures r.preUp == h.preUp && r.preDown == h.preDown
    ensures r.postUp == RemoveFirst(h.postUp, PostUpMatch)
    ensures r.postDown == RemoveFirst(h.postDown, PostDownMatch)
    ensures r == h <==> !Includes(h.postUp, PostUpMatch) && !Includes(h.postDown, PostDownMatch)
  {
    assert |PostUpMatch| > 0 && |PostDownMatch| > 0;
    StripRules(h, PostUpMatch, PostDownMatch)
  }

  /** How many updates `disableIpv6` issues: one per field that holds its match. */
  function Ipv6Writes(h: Hooks): (n: nat)
    ensures n <= 2
    ensures n == 0 <==> StripIpv6(h) == h
    ensures n == 2 <==> Includes(h.postUp, PostUpMatch) && Includes(h.postDown, PostDownMatch)
  {
    assert |PostUpMatch| > 0 && |PostDownMatch| > 0;
    RuleWrites(h, PostUpMatch, PostDownMatch)
  }

  /** Both post hooks with the first occurrence of their rule text removed. */
  function StripRules(h: Hooks, upRules: string, downRules: string): (r: Hooks)
    ensures r.preUp == h.preUp && r.preDown == h.preDown
    ensures !Includes(h.postUp, upRules) ==> r.postUp == h.postUp
    ensures !Includes(h.postDown, downRules) ==> r.postDown == h.postDown
    ensures Includes(h.postUp, upRules) ==>
      exists i: nat :: FirstMatch(h.postUp, upRules, i) && r.postUp == h.postUp[..i] + h.postUp[i + |upRules|..]
    ensures Includes(h.postDown, downRules) ==>
      exists i: nat :: FirstMatch(h.postDown, downRules, i) && r.postDown == h.postDown[..i] + h.postDown[i + |downRules|..]
    ensures |r.postUp| == |h.postUp| - (if Includes(h.postUp, upRules) then |upRules| else 0)
    ensures |r.postDown| == |h.postDown| - (if Includes(h.postDown, downRules) then |downRules| else 0)
    ensures |upRules| > 0 && |downRules| > 0 ==>
      (r == h <==> !Includes(h.postUp, upRules) && !Includes(h.postDown, downRules))
  {
    RemoveFirstChanges(h.postUp, upRules);
    RemoveFirstChanges(h.postDown, downRules);
    h.(postUp := RemoveFirst(h.postUp, upRules), postDown := RemoveFirst(h.postDown, downRules))
  }

  /** One update per post hook that holds its rule text. */
  function RuleWrites(h: Hooks, upRules: string, downRules: string): (n: nat)
    ensures n <= 2
    ensures |upRules| > 0 && |downRules| > 0 ==> (n == 0 <==> StripRules(h, upRules, downRules) == h)
    ensures n == 0 <==> !Includes(h.postUp, upRules) && !Includes(h.postDown, downRules)
    ensures n == 2 <==> Includes(h.postUp, upRules) && Includes(h.postDown, downRules)
  {
    (if Includes(h.postUp, upRules) then 1 else 0) + (if Includes(h.postDown, downRules) then 1 else 0)
  }

  /** Once no match is left, running the IPv6 step again changes nothing and writes nothing. */
  lemma StripIpv6Settled(h: Hooks)
    requires !Includes(StripIpv6(h).postUp, PostUpMatch) && !Includes(StripIpv6(h).postDown, PostDownMatch)
    ensures StripIpv6(StripIpv6(h)) == StripIpv6(h) && Ipv6Writes(StripIpv6(h)) == 0
  {
  }

  /**
   * Only the first occurrence goes: a post-up script holding the rules twice
   * loses one copy per run, so a second run is not a no-op.
   */
  lemma StripIpv6NotIdempotent()
    ensures var h := Hooks("", PostUpMatch + PostUpMatch, "", "");
      StripIpv6(StripIpv6(h)) != StripIpv6(h) && Ipv6Writes(StripIpv6(h)) == 1
  {
    assert |PostUpMatch| > 0 && |PostDownMatch| > 0;
    StripRulesTwice(PostUpMatch, PostDownMatch);
  }

  /** A post-up script holding its rule text twice keeps one copy after the first run. */
  lemma StripRulesTwice(m: string, d: string)
    requires |m| > 0 && |d| > 0
    ensures var h := Hooks("", m + m, "", "");
      var once := StripRules(h, m, d);
      StripRules(once, m, d) != once && RuleWrites(once, m, d) == 1
  {
    assert MatchAt(m + m, m, 0) by {
      assert (m + m)[0..|m|] == m;
    }
    assert IndexOf(m + m, m, 0) == Some(0);
    assert (m + m)[|m|..] == m;
    assert RemoveFirst(m + m, m) == m;
    assert MatchAt(m, m, 0) by {
      assert m[0..|m|] == m;
    }
    assert Includes(m, m);
    assert !Includes("", d) by {
      assert forall i: nat :: !MatchAt("", d, i);
    }
  }

  /** The store holding the hooks record `wg0`, if it exists. */
  class Store {
    var hasRecord: bool
    var preUp: string
    var postUp: string
    var preDown: string
    var postDown: string
    /** Reads of the record (`tx.query.hooks.findFirst`). */
    var lookups: nat
    /** Updates issued (`tx.update(hooks)...execute()`). */
    var writes: nat

    constructor (record: Option<Hooks>)
      ensures hasRecord == record.Some?
      ensures record.Some? ==> Stored() == record.value
      ensures lookups == 0 && writes == 0
    {
      hasRecord := record.Some?;
      var h := if record.Some? then record.value else Hooks("", "", "", "");
      preUp, postUp, preDown, postDown := h.preUp, h.postUp, h.preDown, h.postDown;
      lookups, writes := 0, 0;
    }

    /** The record's current field values. */
    function Stored(): Hooks
      reads this
    {
      Hooks(preUp, postUp, preDown, postDown)
    }

    /** `findFirst(where id = 'wg0')`. */
    method FindHooks() returns (found: Option<Hooks>)
      modifies this`lookups
      ensures found == if hasRecord then Some(Stored()) else None
      ensures lookups == old(lookups) + 1
    {
      lookups := lookups + 1;
      found := if hasRecord then Some(Stored()) else None;
    }

    /** `update(hooks).set(h).where(id = 'wg0')`: all four fields. */
    method SetHooks(h: Hooks)
      modifies this`preUp, this`postUp, this`preDown, this`postDown, this`writes
      ensures writes == old(writes) + 1
      ensures Stored() == if hasRecord then h else old(Stored())
    {
      writes := writes + 1;
      if hasRecord {
        preUp, postUp, preDown, postDown := h.preUp, h.postUp, h.preDown, h.postDown;
      }
    }

    /** `update(hooks).set({ postUp, postDown }).where(id = 'wg0')`. */
    method SetPostHooks(up: string, down: string)
      modifies this`postUp, this`postDown, this`writes
      ensures writes == old(writes) + 1
      ensures Stored() == if hasRecord then old(Stored()).(postUp := up, postDown := down) else old(Stored())
    {
      writes := writes + 1;
      if hasRecord {
        postUp, postDown := up, down;
      }
    }

    /**
     * `overrideHooksFromFiles(db, opts)`. A failed read raises before the
     * store is touched; with both files absent nothing is looked up; a
     * missing record raises; otherwise the merged record is written once,
     * and only when it differs from the stored one.
     */
    method OverrideHooksFromFiles(fs: string -> ReadResult, opts: Option<OverrideOptions>) returns (outcome: Outcome<HookError>)
      modifies this
      ensures hasRecord == old(hasRecord)
      ensures ReadHookFiles(fs).Failure? ==>
        && outcome == Fail(ReadFailed(ReadHookFiles(fs).error))
        && Stored() == old(Stored()) && lookups == old(lookups) && writes == old(writes)
      ensures ReadHookFiles(fs) == Success((Absent, Absent)) ==>
        outcome == Pass && Stored() == old(Stored()) && lookups == old(lookups) && writes == old(writes)
      ensures ReadHookFiles(fs).Success? && ReadHookFiles(fs) != Success((Absent, Absent)) ==>
        && lookups == old(lookups) + 1
        && (!old(hasRecord) ==> outcome == Fail(HooksNotFound) && Stored() == old(Stored()) && writes == old(writes))
        && (old(hasRecord) ==>
              var m := Merge(old(Stored()), ReadHookFiles(fs).value.0, ReadHookFiles(fs).value.1, AllowEmptyOverwrite(opts));
              && outcome == Pass && Stored() == m
              && writes == old(writes) + (if m == old(Stored()) then 0 else 1))
    {
      var files := ReadHookFiles(fs);
      if files.Failure? {
        return Fail(ReadFailed(files.error));
      }
      var (upFile, downFile) := files.value;
      if upFile.Absent? && downFile.Absent? {
        return Pass;
      }
      outcome := MergeFiles(upFile, downFile, AllowEmptyOverwrite(opts));
    }

    /**
     * The transaction of `overrideHooksFromFiles`: look the record up, merge
     * the two file states into it, and write only when a post hook changed.
     */
    method MergeFiles(upFile: FileState, downFile: FileState, allowEmpty: bool) returns (outcome: Outcome<HookError>)
      modifies this
      ensures hasRecord == old(hasRecord) && lookups == old(lookups) + 1
      ensures !old(hasRecord) ==> outcome == Fail(HooksNotFound) && Stored() == old(Stored()) && writes == old(writes)
      ensures old(hasRecord) ==>
        var m := Merge(old(Stored()), upFile, downFile, allowEmpty);
        && outcome == Pass && Stored() == m
        && writes == old(writes) + (if m == old(Stored()) then 0 else 1)
    {
      var found := FindHooks();
      if found.None? {
        return Fail(HooksNotFound);
      }
      var hooks := found.value;
      var updated := Merge(hooks, upFile, downFile, allowEmpty);
      if updated.postUp == hooks.postUp && updated.postDown == hooks.postDown {
        assert updated == hooks;
        return Pass;
      }
      SetHooks(updated);
      return Pass;
    }

    /**
     * `disableIpv6(db)`. Each field that holds its match triggers an update
     * of both fields computed from the record as first read, so a second
     * update repeats the first and the record ends as one update leaves it.
     */
    method DisableIpv6() returns (outcome: Outcome<HookError>)
      modifies this
      ensures hasRecord == old(hasRecord) && lookups == old(lookups) + 1
      ensures !old(hasRecord) ==> outcome == Fail(HooksNotFound) && Stored() == old(Stored()) && writes == old(writes)
      ensures old(hasRecord) ==>
        && outcome == Pass
        && Stored() == StripIpv6(old(Stored()))
        && writes == old(writes) + Ipv6Writes(old(Stored()))
    {
      outcome := RemoveRules(PostUpMatch, PostDownMatch);
    }

    /** The body of `disableIpv6`, for the rule texts it is given. */
    method RemoveRules(upRules: string, downRules: string) returns (outcome: Outcome<HookError>)
      modifies this
      ensures hasRecord == old(hasRecord) && lookups == old(lookups) + 1
      ensures !old(hasRecord) ==> outcome == Fail(HooksNotFound) && Stored() == old(Stored()) && writes == old(writes)
      ensures old(hasRecord) ==>
        && outcome == Pass
        && Stored() == StripRules(old(Stored()), upRules, downRules)
        && writes == old(writes) + RuleWrites(old(Stored()), upRules, downRules)
    {
      var found := FindHooks();
      if found.None? {
        return Fail(HooksNotFound);
      }
      var hooks := found.value;
      var up := RemoveFirst(hooks.postUp, upRules);
      var down := RemoveFirst(hooks.postDown, downRules);
      var upHasRules := Includes(hooks.postUp, upRules);
      var downHasRules := Includes(hooks.postDown, downRules);
      if upHasRules {
        SetPostHooks(up, down);
      }
      if downHasRules {
        SetPostHooks(up, down);
      }
      return Pass;
    }
  }
}
