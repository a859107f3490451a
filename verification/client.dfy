/** One run of the client (`run`): fetch the public IP, compare it with the
    cached one, and on a change notify (optionally), update FreeDNS and
    overwrite the cache. The network, the mail service and SHA-1 are inputs;
    every outward action is recorded, in order, as an Effect. */
module Client {
  import opened Results
  import opened Text
  import opened FreeDns

  /** Service answering with the caller's public IP as plain text. */
  const PublicIpService: string := "https://ipinfo.io/ip"

  const MailSubject: string := "Public IP change notification"

  /** The fixed text before the cached IP, and between the two IPs, in the mail body. */
  const MailLead: string := "Your public IP has probably changed. Cached: "
  const MailMid: string := ", Current: "

  /** Body of the change notification: names the cached IP, then the current one. */
  function MailBody(cached: string, current: string): (body: string)
    ensures IsPrefix(MailLead + cached, body)
    ensures IsSuffix(MailMid + current, body)
    ensures |body| == |MailLead| + |cached| + |MailMid| + |current|
  {
    MailLead + cached + MailMid + current
  }

  /** The cache file `my_public_ip.txt`: absent, or holding some text. */
  datatype CacheFile = Missing | Holding(contents: string)

  /** An outward action of the run. */
  datatype Effect =
    | GetPublicIp(url: string)                     // request to the public-IP service
    | CreateCacheFile                              // empty cache file created on first read
    | SendMail(recipients: string, subject: string, body: string)
    | GetRecords(url: string)                      // FreeDNS record lookup
    | GetUpdate(url: string)                       // request to the selected update URL
    | WriteCacheFile(contents: string)             // cache overwritten

  /** Position of each kind of action in the run's fixed sequence. */
  function Phase(e: Effect): nat
  {
    match e
    case GetPublicIp(_) => 0
    case CreateCacheFile => 1
    case SendMail(_, _, _) => 2
    case GetRecords(_) => 3
    case GetUpdate(_) => 4
    case WriteCacheFile(_) => 5
  }

  /** Each kind of action happens at most once, and in the run's order. */
  ghost predicate InPhaseOrder(effects: seq<Effect>)
  {
    forall i, j :: 0 <= i < j < |effects| ==> Phase(effects[i]) < Phase(effects[j])
  }

  /** Every action of `effects` comes at or after phase `k`. */
  ghost predicate FromPhase(effects: seq<Effect>, k: nat)
  {
    forall i :: 0 <= i < |effects| ==> k <= Phase(effects[i])
  }

  /** Every action of `effects` comes before phase `k`. */
  ghost predicate BeforePhase(effects: seq<Effect>, k: nat)
  {
    forall i :: 0 <= i < |effects| ==> Phase(effects[i]) < k
  }

  /** Two ordered runs of actions, the first wholly before the second, stay ordered when joined. */
  lemma InPhaseOrderJoin(a: seq<Effect>, b: seq<Effect>, k: nat)
    requires InPhaseOrder(a) && InPhaseOrder(b)
    requires BeforePhase(a, k) && FromPhase(b, k)
    ensures InPhaseOrder(a + b)
  {
    forall i, j | 0 <= i < j < |a + b|
      ensures Phase((a + b)[i]) < Phase((a + b)[j])
    {
      if j < |a| {
        assert (a + b)[i] == a[i] && (a + b)[j] == a[j];
      } else if i < |a| {
        assert (a + b)[i] == a[i] && (a + b)[j] == b[j - |a|];
      } else {
        assert (a + b)[i] == b[i - |a|] && (a + b)[j] == b[j - |a|];
      }
    }
  }

  /** Joining two runs of actions from phase `m` on (the second even from a
      later phase `n`) gives a run from phase `m` on. */
  lemma FromPhaseJoin(a: seq<Effect>, b: seq<Effect>, m: nat, n: nat)
    requires m <= n && FromPhase(a, m) && FromPhase(b, n)
    ensures FromPhase(a + b, m)
  {
    forall i | 0 <= i < |a + b|
      ensures m <= Phase((a + b)[i])
    {
      if i < |a| {
        assert (a + b)[i] == a[i];
      } else {
        assert (a + b)[i] == b[i - |a|];
      }
    }
  }

  /** Joining two runs of actions that both come before phase `k`. */
  lemma BeforePhaseJoin(a: seq<Effect>, b: seq<Effect>, k: nat)
    requires BeforePhase(a, k) && BeforePhase(b, k)
    ensures BeforePhase(a + b, k)
  {
    forall i | 0 <= i < |a + b|
      ensures Phase((a + b)[i]) < k
    {
      if i < |a| {
        assert (a + b)[i] == a[i];
      } else {
        assert (a + b)[i] == b[i - |a|];
      }
    }
  }

  /** Some action of `effects` is a notification mail. */
  ghost predicate MailSent(effects: seq<Effect>)
  {
    exists i :: 0 <= i < |effects| && effects[i].SendMail?
  }

  /** Two runs of actions joined send a mail exactly when one of them does. */
  lemma MailSentJoin(a: seq<Effect>, b: seq<Effect>)
    ensures MailSent(a + b) <==> MailSent(a) || MailSent(b)
  {
    if MailSent(a) {
      var i :| 0 <= i < |a| && a[i].SendMail?;
      assert (a + b)[i] == a[i];
    }
    if MailSent(b) {
      var i :| 0 <= i < |b| && b[i].SendMail?;
      assert (a + b)[|a| + i] == b[i];
    }
    if MailSent(a + b) {
      var i :| 0 <= i < |a + b| && (a + b)[i].SendMail?;
      if i < |a| {
        assert a[i] == (a + b)[i];
      } else {
        assert b[i - |a|] == (a + b)[i];
      }
    }
  }

  /** Reasons the run stops with `sys.exit(1)`. */
  datatype Fatal = IpLookupFailed | MailFailed | UpdateFailed(cause: DdnsError)

  /** How the run ends: normally, or halted by a fatal error. */
  datatype Exit = Done | Halted(reason: Fatal)

  /** The process exit status. */
  function ExitStatus(e: Exit): (status: int)
    ensures status == 0 <==> e.Done?
    ensures status == 0 || status == 1
  {
    if e.Done? then 0 else 1
  }

  /** The actions of one step of the run and whether the run may go on. */
  datatype Stage = Stage(effects: seq<Effect>, exit: Exit)

  /** Settings read from the environment (`os.getenv`); unset is None. */
  datatype Environment = Environment(
    username: Option<string>,
    passwd: Option<string>,
    domain: Option<string>,
    recipients: Option<string>)

  /** What the outside world answers during the run. */
  datatype World = World(
    ipStatus: int,          // HTTP status of the public-IP request
    ipText: string,         // its body
    mailDelivered: bool,    // whether sending the mail raised nothing
    recordsBody: string)    // body of the FreeDNS record lookup

  /** The whole run: what it did, the cache file afterwards, and how it ended. */
  datatype RunOutcome = RunOutcome(effects: seq<Effect>, cache: CacheFile, exit: Exit)

  /** `what_is_my_public_ip`: the body, unless the status is 300 or above. */
  function FetchPublicIp(status: int, text: string): (r: Result<string, Fatal>)
    ensures r.Success? <==> status < 300
    ensures r.Success? ==> r.value == text
    ensures r.Failure? ==> r.error == IpLookupFailed
  {
    if status >= 300 then Failure(IpLookupFailed) else Success(text)
  }

  /** Result of reading the cache: the IP read, the file afterwards, the actions taken. */
  datatype CacheRead = CacheRead(ip: string, file: CacheFile, effects: seq<Effect>)

  /** `what_is_my_cached_ip`: the first line of the file; a missing file is
      created empty and reads as "". */
  function ReadCachedIp(cache: CacheFile): (r: CacheRead)
    ensures cache.Missing? ==> r.ip == "" && r.file == Holding("") && r.effects == [CreateCacheFile]
    ensures cache.Holding? ==> r.file == cache && r.effects == []
    ensures cache.Holding? ==> IsPrefix(r.ip, cache.contents)
    ensures cache.Holding? && '\n' !in cache.contents ==> r.ip == cache.contents
    ensures cache.Holding? && '\n' in cache.contents ==>
      |r.ip| > 0 && r.ip[|r.ip| - 1] == '\n' && '\n' !in r.ip[..|r.ip| - 1]
  {
    match cache
    case Missing => CacheRead("", Holding(""), [CreateCacheFile])
    case Holding(contents) => CacheRead(ReadLine(contents), cache, [])
  }

  /** `update_public_ip_cache`: the file is truncated and holds exactly `ip`. */
  function WriteCachedIp(ip: string): (file: CacheFile)
    ensures file.Holding?
    ensures ReadCachedIp(file).effects == [] && ReadCachedIp(file).file == file
    ensures ReadCachedIp(file).ip == ReadLine(ip)
    ensures '\n' !in ip ==> ReadCachedIp(file).ip == ip
  {
    Holding(ip)
  }

  /** Writing an IP and reading it back returns it exactly when it has no
      newline before its last character; in particular whenever it has none. */
  lemma WriteThenReadIff(ip: string)
    ensures ReadCachedIp(WriteCachedIp(ip)).ip == ip <==> (|ip| == 0 || '\n' !in ip[..|ip| - 1])
    ensures '\n' !in ip ==> ReadCachedIp(WriteCachedIp(ip)).ip == ip
  {
    ReadLineWholeIff(ip);
  }

  /** Reading the cache a second time reads the same IP and changes nothing more. */
  lemma ReadCachedIpSettles(cache: CacheFile)
    ensures ReadCachedIp(ReadCachedIp(cache).file).ip == ReadCachedIp(cache).ip
    ensures ReadCachedIp(ReadCachedIp(cache).file).file == ReadCachedIp(cache).file
    ensures ReadCachedIp(ReadCachedIp(cache).file).effects == []
  {
  }

  /** `send_email_notification`: skipped without stopping when no recipients
      are set; otherwise one mail, and a failed delivery halts the run. */
  function SendNotification(recipients: Option<string>, cached: string, current: string, delivered: bool): (r: Stage)
    ensures recipients.None? ==> r == Stage([], Done)
    ensures recipients.Some? ==> r.effects == [SendMail(recipients.value, MailSubject, MailBody(cached, current))]
    ensures recipients.Some? ==> (r.exit == Done <==> delivered)
    ensures r.exit.Halted? ==> r.exit.reason == MailFailed
  {
    match recipients
    case None => Stage([], Done)
    case Some(to) =>
      var mail := [SendMail(to, MailSubject, MailBody(cached, current))];
      if delivered then Stage(mail, Done) else Stage(mail, Halted(MailFailed))
  }

  /** `update_public_ip_freedns`: credentials first, then the record lookup,
      then the selection, then the request to the update URL. */
  function UpdateFreeDns(env: Environment, sha1: string -> string, recordsBody: string): (r: Stage)
    ensures PreHashToken(env.username, env.passwd).Failure? ==>
      r == Stage([], Halted(UpdateFailed(MissingCredentials)))
    ensures PreHashToken(env.username, env.passwd).Success? ==>
      |r.effects| >= 1 && r.effects[0] == GetRecords(LookupUrl(sha1(PreHashToken(env.username, env.passwd).value)))
    ensures r.exit.Done? <==>
      PreHashToken(env.username, env.passwd).Success? && SelectRecord(recordsBody, env.domain).Success?
    ensures r.exit.Done? ==>
      |r.effects| == 2 && r.effects[1] == GetUpdate(UpdateUrl(SelectRecord(recordsBody, env.domain).value))
    ensures r.exit.Halted? ==> r.exit.reason.UpdateFailed? && |r.effects| <= 1
    ensures r.exit.Halted? && PreHashToken(env.username, env.passwd).Success? ==>
      r.exit.reason.cause == SelectRecord(recordsBody, env.domain).error
    ensures IsUpdateStage(r)
  {
    var token := PreHashToken(env.username, env.passwd);
    if token.Failure? then
      Stage([], Halted(UpdateFailed(token.error)))
    else
      var lookup := GetRecords(LookupUrl(sha1(token.value)));
      var selected := SelectRecord(recordsBody, env.domain);
      if selected.Failure? then Stage([lookup], Halted(UpdateFailed(selected.error)))
      else Stage([lookup, GetUpdate(UpdateUrl(selected.value))], Done)
  }

  /** The optional notification of a change: nothing when email is off. */
  function NotifyIfEnabled(env: Environment, email: bool, world: World, cached: string, current: string): (r: Stage)
    ensures |r.effects| == 1 <==> email && env.recipients.Some?
    ensures |r.effects| == 1 ==> r.effects[0] == SendMail(env.recipients.value, MailSubject, MailBody(cached, current))
    ensures r.exit.Done? <==> !email || env.recipients.None? || world.mailDelivered
    ensures IsNotifyStage(r)
  {
    if email then SendNotification(env.recipients, cached, current, world.mailDelivered)
    else Stage([], Done)
  }

  /** What the notification step can look like: at most one action, a mail,
      and a halt only after that mail. */
  predicate IsNotifyStage(s: Stage)
  {
    && |s.effects| <= 1
    && (|s.effects| == 1 ==> s.effects[0].SendMail?)
    && (s.exit.Halted? ==> |s.effects| == 1)
  }

  /** What the FreeDNS step can look like: the lookup comes first, a completed
      update is the lookup and then the update request, a halt leaves at most
      the lookup. */
  predicate IsUpdateStage(s: Stage)
  {
    && (|s.effects| >= 1 ==> s.effects[0].GetRecords?)
    && (s.exit.Done? ==> |s.effects| == 2 && s.effects[1].GetUpdate?)
    && (s.exit.Halted? ==> |s.effects| <= 1)
  }

  /** The `cached != current` branch of `run`: the notification step, then the
      FreeDNS step, then the cache overwrite with the current IP; a halt skips
      everything after it, so the FreeDNS step's actions only count once the
      notification went through. */
  function ApplyChange(notify: Stage, update: Stage, current: string): (r: Stage)
    ensures r.exit.Done? <==> notify.exit.Done? && update.exit.Done?
    ensures r.exit.Halted? ==> r.exit == (if notify.exit.Halted? then notify.exit else update.exit)
    ensures r.exit.Halted? && notify.exit.Halted? ==> r.effects == notify.effects
    ensures r.exit.Done? ==> |r.effects| >= 1 && r.effects[|r.effects| - 1] == WriteCacheFile(current)
  {
    if notify.exit.Halted? then notify
    else if update.exit.Halted? then Stage(notify.effects + update.effects, update.exit)
    else Stage(notify.effects + update.effects + [WriteCacheFile(current)], Done)
  }

  /** The FreeDNS step followed, when it completes, by the cache write acts in
      the order lookup, update request, cache write. */
  lemma StoreInPhaseOrder(update: Stage, current: string)
    requires IsUpdateStage(update)
    ensures var rest := if update.exit.Halted? then update.effects else update.effects + [WriteCacheFile(current)];
      InPhaseOrder(rest) && FromPhase(rest, 3)
  {
    if update.exit.Done? {
      var rest := update.effects + [WriteCacheFile(current)];
      assert Phase(rest[0]) == 3 && Phase(rest[1]) == 4 && Phase(rest[2]) == 5;
    }
  }

  /** The change branch acts in the order mail, lookup, update request, cache
      write, each at most once. */
  lemma ChangeInPhaseOrder(notify: Stage, update: Stage, current: string)
    requires IsNotifyStage(notify) && IsUpdateStage(update)
    ensures var r := ApplyChange(notify, update, current);
      InPhaseOrder(r.effects) && FromPhase(r.effects, 2)
  {
    if notify.exit.Done? {
      var rest := if update.exit.Halted? then update.effects else update.effects + [WriteCacheFile(current)];
      assert ApplyChange(notify, update, current).effects == notify.effects + rest;
      StoreInPhaseOrder(update, current);
      InPhaseOrderJoin(notify.effects, rest, 3);
      FromPhaseJoin(notify.effects, rest, 2, 3);
    }
  }

  /** A halt after a change (failed mail, missing credentials, no usable
      record) leaves the cache file unwritten. */
  lemma ChangeHaltWritesNothing(notify: Stage, update: Stage, current: string)
    requires IsNotifyStage(notify) && IsUpdateStage(update)
    ensures var r := ApplyChange(notify, update, current);
      r.exit.Halted? ==> forall i :: 0 <= i < |r.effects| ==> !r.effects[i].WriteCacheFile?
  {
    if notify.exit.Done? && update.exit.Halted? {
      var effects := notify.effects + update.effects;
      forall i | 0 <= i < |effects|
        ensures !effects[i].WriteCacheFile?
      {
        if i < |notify.effects| {
          assert effects[i] == notify.effects[0];
        } else {
          assert effects[i] == update.effects[0];
        }
      }
    }
  }

  /** Once the notification went through, the change branch replays the
      notification's actions and then the FreeDNS step's, unaltered. */
  lemma ChangeReplaysSteps(notify: Stage, update: Stage, current: string)
    requires notify.exit.Done?
    ensures var r := ApplyChange(notify, update, current);
      && |notify.effects| + |update.effects| <= |r.effects|
      && r.effects[..|notify.effects|] == notify.effects
      && r.effects[|notify.effects|..|notify.effects| + |update.effects|] == update.effects
      && (update.exit.Halted? ==> |r.effects| == |notify.effects| + |update.effects|)
  {
    var r := ApplyChange(notify, update, current);
    var n := |notify.effects|;
    assert r.effects[..n + |update.effects|] == notify.effects + update.effects;
    assert r.effects[..n] == (notify.effects + update.effects)[..n];
    assert r.effects[n..n + |update.effects|] == (notify.effects + update.effects)[n..];
  }

  /** When the FreeDNS step halts, the change branch halts too, having acted
      no further than the record lookup. */
  lemma ChangeHaltedUpdateStopsEarly(notify: Stage, update: Stage, current: string)
    requires IsNotifyStage(notify) && IsUpdateStage(update) && update.exit.Halted?
    ensures var r := ApplyChange(notify, update, current);
      r.exit.Halted? && BeforePhase(r.effects, 4)
  {
    if notify.exit.Done? {
      assert BeforePhase(update.effects, 4) by {
        if |update.effects| == 1 {
          assert Phase(update.effects[0]) == 3;
        }
      }
      BeforePhaseJoin(notify.effects, update.effects, 4);
    } else {
      assert Phase(notify.effects[0]) == 2;
    }
  }

  /** A change applied to the end finishes with the FreeDNS step's lookup and
      update request, followed by the write of exactly the current IP. */
  lemma ChangeDoneEndsWithWrite(notify: Stage, update: Stage, current: string)
    requires IsNotifyStage(notify) && IsUpdateStage(update)
    ensures var r := ApplyChange(notify, update, current);
      r.exit.Done? ==>
        && |r.effects| >= 3
        && r.effects[|r.effects| - 1] == WriteCacheFile(current)
        && r.effects[|r.effects| - 2] == update.effects[1]
        && r.effects[|r.effects| - 3] == update.effects[0]
  {
    if notify.exit.Done? && update.exit.Done? {
      var effects := notify.effects + update.effects + [WriteCacheFile(current)];
      assert effects[|effects| - 2] == update.effects[1];
      assert effects[|effects| - 3] == update.effects[0];
    }
  }

  /** A change sends a mail exactly when the notification step did, whether
      or not the run later halts. */
  lemma ChangeMailsIff(notify: Stage, update: Stage, current: string)
    requires IsNotifyStage(notify) && IsUpdateStage(update)
    ensures MailSent(ApplyChange(notify, update, current).effects) <==> |notify.effects| == 1
  {
    if notify.exit.Halted? {
      assert notify.effects[0].SendMail?;
    } else {
      var rest := if update.exit.Halted? then update.effects else update.effects + [WriteCacheFile(current)];
      assert ApplyChange(notify, update, current).effects == notify.effects + rest;
      MailSentJoin(notify.effects, rest);
      StoreInPhaseOrder(update, current);
      if |notify.effects| == 1 {
        assert notify.effects[0].SendMail?;
      }
    }
  }

  /** The run's `cached != current` test, after a successful fetch: with no
      cache file any non-empty IP is a change; a one-line file is compared whole. */
  predicate IpChanged(world: World, cache: CacheFile): (b: bool)
    ensures b ==> world.ipStatus < 300
    ensures cache.Missing? ==> (b <==> world.ipStatus < 300 && world.ipText != "")
    ensures cache.Holding? && '\n' !in cache.contents ==>
      (b <==> world.ipStatus < 300 && cache.contents != world.ipText)
  {
    world.ipStatus < 300 && ReadCachedIp(cache).ip != world.ipText
  }

  /** `run`, from the public-IP fetch on. */
  function Run(env: Environment, email: bool, world: World, sha1: string -> string, cache: CacheFile): (r: RunOutcome)
    ensures |r.effects| >= 1 && r.effects[0] == GetPublicIp(PublicIpService)
    // A failed fetch stops the run before the cache is even read.
    ensures world.ipStatus >= 300 ==> r == RunOutcome([GetPublicIp(PublicIpService)], cache, Halted(IpLookupFailed))
    // A halted run never writes the cache.
    ensures r.exit.Halted? ==>
      && (forall e :: e in r.effects ==> !e.WriteCacheFile?)
      && r.cache == (if world.ipStatus >= 300 then cache else ReadCachedIp(cache).file)
  {
    match FetchPublicIp(world.ipStatus, world.ipText)
    case Failure(e) => RunOutcome([GetPublicIp(PublicIpService)], cache, Halted(e))
    case Success(current) =>
      var read := ReadCachedIp(cache);
      var before := [GetPublicIp(PublicIpService)] + read.effects;
      if read.ip == current then
        RunOutcome(before, read.file, Done)
      else
        var notify := NotifyIfEnabled(env, email, world, read.ip, current);
        var update := UpdateFreeDns(env, sha1, world.recordsBody);
        var change := ApplyChange(notify, update, current);
        ChangeHaltWritesNothing(notify, update, current);
        RunOutcome(before + change.effects,
                   if change.exit.Done? then WriteCachedIp(current) else read.file,
                   change.exit)
  }

  /** After a change, the run's actions are the IP request, the cache read's
      actions and the change branch's, and the cache holds the current IP
      exactly when the branch completed. */
  lemma RunOnChange(env: Environment, email: bool, world: World, sha1: string -> string, cache: CacheFile)
    requires IpChanged(world, cache)
    ensures var read := ReadCachedIp(cache);
      var change := ApplyChange(NotifyIfEnabled(env, email, world, read.ip, world.ipText),
                                UpdateFreeDns(env, sha1, world.recordsBody), world.ipText);
      Run(env, email, world, sha1, cache) ==
        RunOutcome([GetPublicIp(PublicIpService)] + read.effects + change.effects,
                   if change.exit.Done? then Holding(world.ipText) else read.file,
                   change.exit)
  {
  }

  /** The IP request, then the cache read's actions, then an ordered change
      branch, is in phase order. */
  lemma ReadThenChangeInOrder(readEffects: seq<Effect>, change: seq<Effect>)
    requires readEffects == [] || readEffects == [CreateCacheFile]
    requires InPhaseOrder(change) && FromPhase(change, 2)
    ensures InPhaseOrder([GetPublicIp(PublicIpService)] + readEffects + change)
  {
    var pre := [GetPublicIp(PublicIpService)] + readEffects;
    assert InPhaseOrder(pre) && BeforePhase(pre, 2) by {
      if |pre| == 2 {
        assert Phase(pre[0]) == 0 && Phase(pre[1]) == 1;
      }
    }
    InPhaseOrderJoin(pre, change, 2);
  }

  /** In a phase-ordered list of actions only the last can be a cache write. */
  lemma InPhaseOrderWritesOnlyLast(effects: seq<Effect>)
    requires InPhaseOrder(effects)
    ensures forall i :: 0 <= i < |effects| - 1 ==> !effects[i].WriteCacheFile?
  {
    forall i | 0 <= i < |effects| - 1
      ensures !effects[i].WriteCacheFile?
    {
      assert Phase(effects[i]) < Phase(effects[|effects| - 1]);
    }
  }

  /** A run acts in the fixed order IP request, cache creation, mail, lookup,
      update request, cache write, each at most once. */
  lemma RunInPhaseOrder(env: Environment, email: bool, world: World, sha1: string -> string, cache: CacheFile)
    ensures InPhaseOrder(Run(env, email, world, sha1, cache).effects)
  {
    var read := ReadCachedIp(cache);
    if IpChanged(world, cache) {
      var notify := NotifyIfEnabled(env, email, world, read.ip, world.ipText);
      var update := UpdateFreeDns(env, sha1, world.recordsBody);
      var change := ApplyChange(notify, update, world.ipText);
      RunOnChange(env, email, world, sha1, cache);
      ChangeInPhaseOrder(notify, update, world.ipText);
      ReadThenChangeInOrder(read.effects, change.effects);
    } else if world.ipStatus < 300 {
      assert Run(env, email, world, sha1, cache).effects == [GetPublicIp(PublicIpService)] + read.effects + [];
      ReadThenChangeInOrder(read.effects, []);
    }
  }

  /** Same IP as cached: the run ends normally after reading the cache, with
      no mail, no FreeDNS request and no cache write; an existing cache file
      is left as it was. */
  lemma UnchangedIpIsNoOp(env: Environment, email: bool, world: World, sha1: string -> string, cache: CacheFile)
    requires world.ipStatus < 300 && ReadCachedIp(cache).ip == world.ipText
    ensures var r := Run(env, email, world, sha1, cache);
      && r.exit == Done
      && r.cache == ReadCachedIp(cache).file
      && (cache.Holding? ==> r.cache == cache)
      && forall i :: 0 <= i < |r.effects| ==> r.effects[i] == GetPublicIp(PublicIpService) || r.effects[i] == CreateCacheFile
  {
  }

  /** A changed IP that the run carries through is written to the cache as
      the run's last action, right after the record lookup at the credentials'
      digest and the request to the selected record's update URL. */
  lemma ChangedIpEndsWithWrite(env: Environment, email: bool, world: World, sha1: string -> string, cache: CacheFile)
    requires IpChanged(world, cache)
    ensures var r := Run(env, email, world, sha1, cache);
      r.exit.Done? ==>
        && r.cache == Holding(world.ipText)
        && PreHashToken(env.username, env.passwd).Success?
        && SelectRecord(world.recordsBody, env.domain).Success?
        && |r.effects| >= 3
        && r.effects[|r.effects| - 1] == WriteCacheFile(world.ipText)
        && r.effects[|r.effects| - 2] == GetUpdate(UpdateUrl(SelectRecord(world.recordsBody, env.domain).value))
        && r.effects[|r.effects| - 3] == GetRecords(LookupUrl(sha1(PreHashToken(env.username, env.passwd).value)))
  {
    var read := ReadCachedIp(cache);
    var notify := NotifyIfEnabled(env, email, world, read.ip, world.ipText);
    var update := UpdateFreeDns(env, sha1, world.recordsBody);
    var change := ApplyChange(notify, update, world.ipText);
    RunOnChange(env, email, world, sha1, cache);
    if change.exit.Done? {
      ChangeDoneEndsWithWrite(notify, update, world.ipText);
      var e := [GetPublicIp(PublicIpService)] + read.effects + change.effects;
      assert e[|e| - 1] == change.effects[|change.effects| - 1];
      assert e[|e| - 2] == change.effects[|change.effects| - 2];
      assert e[|e| - 3] == change.effects[|change.effects| - 3];
    }
  }

  /** Only a run's last action can be a cache write, so the cache is written at most once. */
  lemma RunWritesOnlyLast(env: Environment, email: bool, world: World, sha1: string -> string, cache: CacheFile)
    ensures var r := Run(env, email, world, sha1, cache);
      forall i :: 0 <= i < |r.effects| - 1 ==> !r.effects[i].WriteCacheFile?
  {
    RunInPhaseOrder(env, email, world, sha1, cache);
    InPhaseOrderWritesOnlyLast(Run(env, email, world, sha1, cache).effects);
  }

  /** The process exits with status 0 (the run ends normally) exactly when the
      fetch succeeds and either the IP is unchanged or the mail (if any) and
      the FreeDNS update both succeed; otherwise it exits with status 1. */
  lemma RunDoneIff(env: Environment, email: bool, world: World, sha1: string -> string, cache: CacheFile)
    ensures ExitStatus(Run(env, email, world, sha1, cache).exit) == 0 <==>
      && world.ipStatus < 300
      && (!IpChanged(world, cache)
          || ((!email || env.recipients.None? || world.mailDelivered)
              && UpdateFreeDns(env, sha1, world.recordsBody).exit.Done?))
  {
    if IpChanged(world, cache) {
      RunOnChange(env, email, world, sha1, cache);
    }
  }

  /** A mail goes out exactly when the IP changed, email is on and recipients are set. */
  lemma RunMailsIff(env: Environment, email: bool, world: World, sha1: string -> string, cache: CacheFile)
    ensures MailSent(Run(env, email, world, sha1, cache).effects) <==>
      IpChanged(world, cache) && email && env.recipients.Some?
  {
    var read := ReadCachedIp(cache);
    var before := [GetPublicIp(PublicIpService)] + read.effects;
    assert !MailSent(before) by {
      assert forall i :: 0 <= i < |before| ==> Phase(before[i]) < 2;
    }
    if IpChanged(world, cache) {
      var notify := NotifyIfEnabled(env, email, world, read.ip, world.ipText);
      var update := UpdateFreeDns(env, sha1, world.recordsBody);
      var change := ApplyChange(notify, update, world.ipText);
      RunOnChange(env, email, world, sha1, cache);
      ChangeMailsIff(notify, update, world.ipText);
      MailSentJoin(before, change.effects);
    } else if world.ipStatus < 300 {
      assert Run(env, email, world, sha1, cache).effects == before;
    }
  }

  /** The mail of a changed run goes to the configured recipients, with the
      fixed subject and a body naming the cached IP and then the current one. */
  lemma RunMailNamesBothIps(env: Environment, email: bool, world: World, sha1: string -> string, cache: CacheFile)
    requires IpChanged(world, cache) && email && env.recipients.Some?
    ensures SendMail(env.recipients.value, MailSubject, MailBody(ReadCachedIp(cache).ip, world.ipText))
      in Run(env, email, world, sha1, cache).effects
  {
    var read := ReadCachedIp(cache);
    var notify := NotifyIfEnabled(env, email, world, read.ip, world.ipText);
    var update := UpdateFreeDns(env, sha1, world.recordsBody);
    var change := ApplyChange(notify, update, world.ipText);
    RunOnChange(env, email, world, sha1, cache);
    if notify.exit.Done? {
      ChangeReplaysSteps(notify, update, world.ipText);
      assert change.effects[0] == notify.effects[0];
    }
    var pre := [GetPublicIp(PublicIpService)] + read.effects;
    assert (pre + change.effects)[|pre|] == change.effects[0];
  }

  /** The IP request, then the cache read's actions, then a change branch that
      stopped before the update request, hold no update request and no cache write. */
  lemma ReadThenEarlyStopRequestsNoUpdate(readEffects: seq<Effect>, change: seq<Effect>)
    requires readEffects == [] || readEffects == [CreateCacheFile]
    requires BeforePhase(change, 4)
    ensures var e := [GetPublicIp(PublicIpService)] + readEffects + change;
      forall i :: 0 <= i < |e| ==> !e[i].GetUpdate? && !e[i].WriteCacheFile?
  {
    var pre := [GetPublicIp(PublicIpService)] + readEffects;
    assert BeforePhase(pre, 4) by {
      assert forall i :: 0 <= i < |pre| ==> Phase(pre[i]) <= 1;
    }
    BeforePhaseJoin(pre, change, 4);
    var e := pre + change;
    forall i | 0 <= i < |e|
      ensures !e[i].GetUpdate? && !e[i].WriteCacheFile?
    {
      assert Phase(e[i]) < 4;
    }
  }

  /** After a change, a failed record selection halts the run before any
      update request and before the cache write. */
  lemma FailedSelectionRequestsNoUpdate(env: Environment, email: bool, world: World, sha1: string -> string, cache: CacheFile)
    requires IpChanged(world, cache) && SelectRecord(world.recordsBody, env.domain).Failure?
    ensures var r := Run(env, email, world, sha1, cache);
      && r.exit.Halted?
      && forall i :: 0 <= i < |r.effects| ==> !r.effects[i].GetUpdate? && !r.effects[i].WriteCacheFile?
  {
    var read := ReadCachedIp(cache);
    var notify := NotifyIfEnabled(env, email, world, read.ip, world.ipText);
    var update := UpdateFreeDns(env, sha1, world.recordsBody);
    RunOnChange(env, email, world, sha1, cache);
    ChangeHaltedUpdateStopsEarly(notify, update, world.ipText);
    ReadThenEarlyStopRequestsNoUpdate(read.effects, ApplyChange(notify, update, world.ipText).effects);
  }

  /** With no recipients set, turning email on changes nothing: the
      notification is skipped and the run goes on. */
  lemma MissingRecipientsSkipsNotification(env: Environment, world: World, sha1: string -> string, cache: CacheFile)
    requires env.recipients.None?
    ensures Run(env, true, world, sha1, cache) == Run(env, false, world, sha1, cache)
  {
  }

  /** Without a username or password the provider is never contacted and the
      cache is never written; a changed IP then halts the run. */
  lemma MissingCredentialsNeverReachProvider(env: Environment, email: bool, world: World, sha1: string -> string, cache: CacheFile)
    requires env.username.None? || env.passwd.None?
    ensures var r := Run(env, email, world, sha1, cache);
      && (forall i :: 0 <= i < |r.effects| ==> !r.effects[i].GetRecords? && !r.effects[i].GetUpdate? && !r.effects[i].WriteCacheFile?)
      && (IpChanged(world, cache) ==> r.exit.Halted?)
  {
    if IpChanged(world, cache) {
      var read := ReadCachedIp(cache);
      var notify := NotifyIfEnabled(env, email, world, read.ip, world.ipText);
      var update := UpdateFreeDns(env, sha1, world.recordsBody);
      RunOnChange(env, email, world, sha1, cache);
      assert update == Stage([], Halted(UpdateFailed(MissingCredentials)));
      assert ApplyChange(notify, update, world.ipText).effects == notify.effects;
    }
  }

  /** On the first run (no cache file) a non-empty IP always counts as a
      change: the run either stores it or halts with an empty cache file. */
  lemma FirstRunTakesChangePath(env: Environment, email: bool, world: World, sha1: string -> string)
    requires world.ipStatus < 300 && world.ipText != ""
    ensures IpChanged(world, Missing)
    ensures var r := Run(env, email, world, sha1, Missing);
      (r.exit.Done? && r.cache == Holding(world.ipText)) || (r.exit.Halted? && r.cache == Holding(""))
  {
    RunOnChange(env, email, world, sha1, Missing);
  }

  /** Once a run has completed, a later run that fetches the same IP is a
      no-op, provided the IP has no newline before its last character (the
      cache is read back with `readline`). */
  lemma CompletedRunSettles(env: Environment, email: bool, world: World, sha1: string -> string, cache: CacheFile,
                            env': Environment, email': bool, world': World, sha1': string -> string)
    requires Run(env, email, world, sha1, cache).exit.Done?
    requires world'.ipStatus < 300 && world'.ipText == world.ipText
    requires |world.ipText| == 0 || '\n' !in world.ipText[..|world.ipText| - 1]
    ensures var next := Run(env', email', world', sha1', Run(env, email, world, sha1, cache).cache);
      && next.exit == Done
      && next.cache == Run(env, email, world, sha1, cache).cache
      && forall i :: 0 <= i < |next.effects| ==> next.effects[i] == GetPublicIp(PublicIpService)
  {
    var first := Run(env, email, world, sha1, cache);
    if IpChanged(world, cache) {
      RunOnChange(env, email, world, sha1, cache);
      WriteThenReadIff(world.ipText);
    } else {
      ReadCachedIpSettles(cache);
    }
    assert first.cache.Holding?;
  }

  /** An IP with a newline before its last character never settles: after it
      is stored, the next run reads back only its first line and sees a change again. */
  lemma InnerNewlineNeverSettles(env: Environment, email: bool, world: World, sha1: string -> string, cache: CacheFile,
                                 world': World)
    requires |world.ipText| > 0 && '\n' in world.ipText[..|world.ipText| - 1]
    requires world'.ipStatus < 300 && world'.ipText == world.ipText
    ensures IpChanged(world, cache) && Run(env, email, world, sha1, cache).exit.Done? ==>
      IpChanged(world', Run(env, email, world, sha1, cache).cache)
  {
    if IpChanged(world, cache) {
      RunOnChange(env, email, world, sha1, cache);
      WriteThenReadIff(world.ipText);
    }
  }
}
