/**
  * The connectivity supervisor of main/wifi_task.c: the counters of failed connects and of
  * lost ping cycles kept by `wifi_connect`, `ping_gateway` and `wifi_watch_task`, the
  * restarts they trigger, the "save the configuration only if it changed" rule of
  * `init_wifi`, and the labels of `wifi_authmode_str` and `wifi_cipher_type_str`.
  *
  * The driver is abstracted to inputs: whether a connect got an IP address within its
  * 10 second wait, and what a ping cycle to the gateway observed.
  */
module WifiTask {
  import opened CStrings

  const FatalDisconCount: nat := 5
  const TimeoutThreshold: nat := 5

  // ---------------------------------------------------------------------------------
  // Labels for the log line of `wifi_log_rssi`.

  /** `wifi_auth_mode_t`, as numbered by the Wi-Fi driver. */
  const AuthOpen: int := 0
  const AuthWpa2Enterprise: int := 5

  /** `wifi_authmode_str`: "?" for every value that is not one of the six known modes. */
  function AuthModeStr(mode: int): (s: string)
    ensures s == "?" <==> !(AuthOpen <= mode <= AuthWpa2Enterprise)
  {
    match mode
    case 0 => "open"
    case 1 => "WEP"
    case 2 => "WPA_PSK"
    case 3 => "WPA2_PSK"
    case 4 => "WPA_WPA2_PSK"
    case 5 => "WPA2_ENTERPRISE"
    case _ => "?"
  }

  /** The six known modes get a label of their own. */
  lemma AuthModeLabels(mode: int, other: int)
    ensures AuthOpen <= mode <= AuthWpa2Enterprise && AuthModeStr(mode) == AuthModeStr(other) ==> mode == other
  {
  }

  /** `wifi_cipher_type_t`, as numbered by the Wi-Fi driver. */
  const CipherNone: int := 0
  const CipherTkipCcmp: int := 5

  /** `wifi_cipher_type_str`: "?" for every value that is not one of the six known ciphers. */
  function CipherTypeStr(cipher: int): (s: string)
    ensures s == "?" <==> !(CipherNone <= cipher <= CipherTkipCcmp)
  {
    match cipher
    case 0 => "none"
    case 1 => "WEP40"
    case 2 => "WEP104"
    case 3 => "TKIP"
    case 4 => "CCMP"
    case 5 => "TKIP and CCMP"
    case _ => "?"
  }

  /** The six known ciphers get a label of their own. */
  lemma CipherTypeLabels(cipher: int, other: int)
    ensures CipherNone <= cipher <= CipherTkipCcmp && CipherTypeStr(cipher) == CipherTypeStr(other) ==> cipher == other
  {
  }

  // ---------------------------------------------------------------------------------
  // `init_wifi`: the stored station configuration.

  /**
    * The configuration is written back when `strcmp` finds the stored SSID or the stored
    * password different from the compiled-in one.
    */
  function ShouldSaveConfig(curSsid: string, curPass: string, ssid: string, pass: string): (save: bool)
    ensures curSsid == ssid && curPass == pass ==> !save
  {
    StrCmp(curSsid, ssid) != 0 || StrCmp(curPass, pass) != 0
  }

  /** For C strings this is exactly "the stored SSID or password is not the compiled-in one". */
  lemma SaveConfigIffChanged(curSsid: string, curPass: string, ssid: string, pass: string)
    requires NoNul(curSsid) && NoNul(curPass) && NoNul(ssid) && NoNul(pass)
    ensures ShouldSaveConfig(curSsid, curPass, ssid, pass) <==> curSsid != ssid || curPass != pass
  {
    StrCmpZeroIffEqual(curSsid, ssid);
    StrCmpZeroIffEqual(curPass, pass);
  }

  // ---------------------------------------------------------------------------------
  // `ping_gateway` and `ping_on_end`.

  /**
    * What one call of `ping_gateway` observes: either the station has no IP information,
    * or a session of echo requests ran, each answered (true) or not (false).
    */
  datatype PingCycle = NoIpInfo | Probed(replies: seq<bool>)

  /** `ESP_PING_PROF_REPLY`: the number of answered requests. */
  function Received(replies: seq<bool>): (n: nat)
    ensures n <= |replies|
  {
    if replies == [] then 0 else Received(replies[..|replies| - 1]) + (if replies[|replies| - 1] then 1 else 0)
  }

  /**
    * `all_timeout` after a cycle: set without pinging when there is no IP information,
    * and otherwise exactly when not a single request was answered.
    */
  function AllTimeout(cycle: PingCycle): (lost: bool)
    ensures lost <==> cycle.NoIpInfo? || forall i :: 0 <= i < |cycle.replies| ==> !cycle.replies[i]
  {
    match cycle
    case NoIpInfo => true
    case Probed(replies) =>
      ReceivedZeroIffNoReply(replies);
      Received(replies) == 0
  }

  /** Zero replies means that not a single request was answered. */
  lemma {:induction false} ReceivedZeroIffNoReply(replies: seq<bool>)
    ensures Received(replies) == 0 <==> forall i :: 0 <= i < |replies| ==> !replies[i]
    decreases |replies|
  {
    if replies != [] {
      var init := replies[..|replies| - 1];
      ReceivedZeroIffNoReply(init);
      assert forall i :: 0 <= i < |init| ==> init[i] == replies[i];
    }
  }

  // ---------------------------------------------------------------------------------
  // `wifi_connect` and `wifi_watch_task`.

  datatype Reason = ConnectFailures | PingTimeouts

  /** `esp_restart` does not return: a restarted supervisor takes no further step. */
  datatype Status = Running | Restarted(reason: Reason)

  /**
    * The supervisor's state: `wifi_discon_count`, whether `wifi_stop` is given,
    * `timeout_repeat`, `all_timeout`, how often `wifi_disconnect` ran, how often the
    * readiness mutex was given, how often the task watchdog was fed, and whether the
    * device restarted.
    */
  datatype WatchState = WatchState(
    disconCount: nat, stopPending: bool, timeoutRepeat: nat, allTimeout: bool,
    disconnects: nat, readyGiven: nat, wdtResets: nat, status: Status)

  /** The inputs of one pass of the loop: the result of a reconnect, if one is made, and the ping cycle. */
  datatype Round = Round(gotIp: bool, cycle: PingCycle)

  /** `wifi_connect`: success when the IP address arrives within the wait. */
  function AfterConnect(s: WatchState, gotIp: bool): (t: WatchState)
    ensures gotIp ==> t.disconCount == 0 && t.stopPending == s.stopPending
    ensures !gotIp ==> t.disconCount == s.disconCount + 1 && t.stopPending
    ensures t.(disconCount := s.disconCount, stopPending := s.stopPending) == s
  {
    if gotIp then s.(disconCount := 0)
    else s.(disconCount := s.disconCount + 1, stopPending := true)
  }

  /** The caller's `xSemaphoreGive(mutex)` after a successful connect, when there is a mutex. */
  function GiveReady(s: WatchState, ok: bool, hasMutex: bool): (t: WatchState)
    ensures t.readyGiven == s.readyGiven + (if ok && hasMutex then 1 else 0)
    ensures t.(readyGiven := s.readyGiven) == s
  {
    if ok && hasMutex then s.(readyGiven := s.readyGiven + 1) else s
  }

  /**
    * Lines 250-263: the counters start at zero, the give that `vSemaphoreCreateBinary`
    * leaves on `wifi_stop` is taken, then the first connect.
    */
  function Boot(gotIp: bool, hasMutex: bool): (s: WatchState)
    ensures s.status == Running && s.timeoutRepeat == 0 && !s.allTimeout
    ensures s.disconnects == 0 && s.wdtResets == 0
  {
    var s := WatchState(0, false, 0, false, 0, 0, 0, Running);
    GiveReady(AfterConnect(s, gotIp), gotIp, hasMutex)
  }

  /** The ping half of the loop body, with the watchdog reset when the device keeps running. */
  function AfterPing(s: WatchState, cycle: PingCycle): (t: WatchState)
    ensures t.allTimeout == AllTimeout(cycle)
    ensures t.timeoutRepeat == (if AllTimeout(cycle) then s.timeoutRepeat + 1 else 0)
    ensures t.status == (if t.timeoutRepeat == TimeoutThreshold then Restarted(PingTimeouts) else s.status)
    ensures t.wdtResets == s.wdtResets + (if t.timeoutRepeat == TimeoutThreshold then 0 else 1)
    ensures t.(allTimeout := s.allTimeout, timeoutRepeat := s.timeoutRepeat, status := s.status, wdtResets := s.wdtResets) == s
  {
    var lost := AllTimeout(cycle);
    var s1 := s.(allTimeout := lost);
    if lost then
      var r := s1.timeoutRepeat + 1;
      if r == TimeoutThreshold then s1.(timeoutRepeat := r, status := Restarted(PingTimeouts))
      else s1.(timeoutRepeat := r, wdtResets := s1.wdtResets + 1)
    else s1.(timeoutRepeat := 0, wdtResets := s1.wdtResets + 1)
  }

  /**
    * One pass of the `while (1)` loop: when `wifi_stop` is given, restart if the failed
    * connects reached the threshold, otherwise disconnect and reconnect; then ping the
    * gateway. `wifi_stop` is left given exactly when this pass's reconnect failed, and the
    * watchdog is fed exactly when the pass does not restart.
    */
  function Iteration(s: WatchState, round: Round, hasMutex: bool): (t: WatchState)
    requires s.status == Running
    ensures t.stopPending <==> s.stopPending && s.disconCount < FatalDisconCount && !round.gotIp
    ensures t.wdtResets == s.wdtResets + (if t.status == Running then 1 else 0)
    ensures t.disconnects == s.disconnects + (if s.stopPending && s.disconCount < FatalDisconCount then 1 else 0)
  {
    if s.stopPending then
      var s1 := s.(stopPending := false);
      if s1.disconCount >= FatalDisconCount then s1.(status := Restarted(ConnectFailures))
      else
        var s2 := s1.(disconnects := s1.disconnects + 1);
        AfterPing(GiveReady(AfterConnect(s2, round.gotIp), round.gotIp, hasMutex), round.cycle)
    else AfterPing(s, round.cycle)
  }

  /**
    * The loop over a sequence of rounds, which ends early once the device restarts; a
    * restarted device changes no more, and one still running has fed the watchdog once per round.
    */
  function Rounds(s: WatchState, rounds: seq<Round>, hasMutex: bool): (t: WatchState)
    ensures s.status != Running ==> t == s
    ensures t.status == Running ==> t.wdtResets == s.wdtResets + |rounds|
    ensures t.wdtResets <= s.wdtResets + |rounds|
    decreases |rounds|
  {
    if rounds == [] || s.status != Running then s
    else Rounds(Iteration(s, rounds[0], hasMutex), rounds[1..], hasMutex)
  }

  /**
    * The supervisor's invariant: a pending stop means a failed connect not yet handled,
    * the failure count never passes the threshold, and a running device has fewer than
    * `TimeoutThreshold` consecutive lost cycles behind it.
    */
  predicate Valid(s: WatchState)
  {
    && (s.status != Restarted(ConnectFailures) ==> (s.stopPending <==> s.disconCount > 0))
    && s.disconCount <= FatalDisconCount
    && s.timeoutRepeat <= TimeoutThreshold
    && (s.status == Running ==> s.timeoutRepeat < TimeoutThreshold)
    && (s.status == Restarted(PingTimeouts) ==> s.timeoutRepeat == TimeoutThreshold && s.allTimeout)
    && (s.status == Restarted(ConnectFailures) ==> s.disconCount == FatalDisconCount)
  }

  /** After boot the supervisor runs, and a pending stop stands for exactly one failed connect. */
  lemma BootValid(gotIp: bool, hasMutex: bool)
    ensures var s := Boot(gotIp, hasMutex);
      && Valid(s) && s.status == Running
      && (s.stopPending <==> !gotIp) && s.disconCount == (if gotIp then 0 else 1)
      && s.readyGiven == (if gotIp && hasMutex then 1 else 0)
  {
  }

  /** Each pass of the loop keeps the invariant. */
  lemma IterationValid(s: WatchState, round: Round, hasMutex: bool)
    requires Valid(s) && s.status == Running
    ensures Valid(Iteration(s, round, hasMutex))
  {
  }

  lemma {:induction false} RoundsValid(s: WatchState, rounds: seq<Round>, hasMutex: bool)
    requires Valid(s)
    ensures Valid(Rounds(s, rounds, hasMutex))
    decreases |rounds|
  {
    if rounds != [] && s.status == Running {
      IterationValid(s, rounds[0], hasMutex);
      RoundsValid(Iteration(s, rounds[0], hasMutex), rounds[1..], hasMutex);
    }
  }

  /**
    * A pass restarts for connect failures exactly when `wifi_stop` is given and the count
    * reached the threshold, and then it touches nothing before restarting: no disconnect,
    * no reconnect, no ping, no watchdog reset; only `wifi_stop` has been taken.
    */
  lemma StopRestartIff(s: WatchState, round: Round, hasMutex: bool)
    requires s.status == Running
    ensures var t := Iteration(s, round, hasMutex);
      && (t.status == Restarted(ConnectFailures) <==> s.stopPending && s.disconCount >= FatalDisconCount)
      && (t.status == Restarted(ConnectFailures) ==> t == s.(stopPending := false, status := Restarted(ConnectFailures)))
  {
  }

  /** A pass that answers a ping resets the lost-cycle count and keeps the device running. */
  lemma ReplyResetsTimeouts(s: WatchState, round: Round, hasMutex: bool)
    requires s.status == Running && !AllTimeout(round.cycle)
    requires !(s.stopPending && s.disconCount >= FatalDisconCount)
    ensures var t := Iteration(s, round, hasMutex);
      t.status == Running && t.timeoutRepeat == 0 && !t.allTimeout && t.wdtResets == s.wdtResets + 1
  {
  }

  /** The readiness mutex is given in a pass exactly when it reconnects successfully and there is a mutex. */
  lemma ReadyOnlyAfterConnect(s: WatchState, round: Round, hasMutex: bool)
    requires s.status == Running
    ensures Iteration(s, round, hasMutex).readyGiven
      == s.readyGiven + (if s.stopPending && s.disconCount < FatalDisconCount && round.gotIp && hasMutex then 1 else 0)
  {
  }

  /** Every round's reconnect fails; its ping cycle may go either way. */
  predicate FailingConnects(rounds: seq<Round>)
  {
    forall i :: 0 <= i < |rounds| ==> !rounds[i].gotIp
  }

  /**
    * Consecutive failed connects: from `c` pending failures, `n` rounds that all fail to
    * reconnect restart the device exactly when `c + n` passes the threshold, whatever the
    * pings do; until then each round adds one failure. The lost-cycle count cannot reach
    * its threshold first, since it started below `c` and grows by at most one per round.
    */
  lemma {:induction false} ConnectFailuresRestart(s: WatchState, rounds: seq<Round>, hasMutex: bool)
    requires Valid(s) && s.status == Running && s.stopPending
    requires s.timeoutRepeat < s.disconCount
    requires FailingConnects(rounds)
    ensures var t := Rounds(s, rounds, hasMutex);
      && (t.status == Restarted(ConnectFailures) <==> s.disconCount + |rounds| > FatalDisconCount)
      && (t.status == Running <==> s.disconCount + |rounds| <= FatalDisconCount)
      && (t.status == Running ==> t.disconCount == s.disconCount + |rounds| && t.stopPending)
    decreases |rounds|
  {
    if rounds != [] {
      var s1 := Iteration(s, rounds[0], hasMutex);
      if s.disconCount < FatalDisconCount {
        assert s1.status == Running && s1.stopPending && s1.disconCount == s.disconCount + 1;
        assert s1.timeoutRepeat < s1.disconCount;
        IterationValid(s, rounds[0], hasMutex);
        assert FailingConnects(rounds[1..]) by {
          assert forall i :: 0 <= i < |rounds[1..]| ==> rounds[1..][i] == rounds[i + 1];
        }
        ConnectFailuresRestart(s1, rounds[1..], hasMutex);
      }
    }
  }

  /**
    * From boot with a failed first connect, passes whose reconnects keep failing restart
    * the device exactly when four of them follow the first failure, five failures in all,
    * whatever the pings do.
    */
  lemma FiveFailedConnectsRestart(rounds: seq<Round>, hasMutex: bool)
    requires FailingConnects(rounds)
    ensures var t := Rounds(Boot(false, hasMutex), rounds, hasMutex);
      t.status == Restarted(ConnectFailures) <==> |rounds| >= FatalDisconCount
  {
    BootValid(false, hasMutex);
    ConnectFailuresRestart(Boot(false, hasMutex), rounds, hasMutex);
  }

  /** Every round finds `wifi_stop` not given, and the ping cycle is lost. */
  predicate LostCycles(rounds: seq<Round>)
  {
    forall i :: 0 <= i < |rounds| ==> AllTimeout(rounds[i].cycle)
  }

  /**
    * Consecutive lost ping cycles: with no stop pending and `r` lost cycles behind it,
    * `n` more restart the device exactly when `r + n` reaches the threshold; until then
    * each adds one to `timeout_repeat`.
    */
  lemma {:induction false} PingTimeoutsRestart(s: WatchState, rounds: seq<Round>, hasMutex: bool)
    requires Valid(s) && s.status == Running && !s.stopPending
    requires LostCycles(rounds)
    ensures var t := Rounds(s, rounds, hasMutex);
      && (t.status == Restarted(PingTimeouts) <==> s.timeoutRepeat + |rounds| >= TimeoutThreshold)
      && (t.status == Running <==> s.timeoutRepeat + |rounds| < TimeoutThreshold)
      && t.disconCount == 0 && !t.stopPending
      && (t.status == Running ==> t.timeoutRepeat == s.timeoutRepeat + |rounds| && t.wdtResets == s.wdtResets + |rounds|)
    decreases |rounds|
  {
    if rounds != [] {
      var s1 := Iteration(s, rounds[0], hasMutex);
      IterationValid(s, rounds[0], hasMutex);
      if s1.status == Running {
        assert LostCycles(rounds[1..]) by {
          assert forall i :: 0 <= i < |rounds[1..]| ==> rounds[1..][i] == rounds[i + 1];
        }
        PingTimeoutsRestart(s1, rounds[1..], hasMutex);
      }
    }
  }

  /** Four lost cycles in a row never restart a device that had a reply before them. */
  lemma FourLostCyclesKeepRunning(s: WatchState, rounds: seq<Round>, hasMutex: bool)
    requires Valid(s) && s.status == Running && !s.stopPending && s.timeoutRepeat == 0
    requires LostCycles(rounds) && |rounds| < TimeoutThreshold
    ensures Rounds(s, rounds, hasMutex).status == Running
  {
    PingTimeoutsRestart(s, rounds, hasMutex);
  }

  /**
    * The supervisor task: its state, with `mutex != NULL` as `hasMutex`. `wifi_stop` is
    * the field `stopPending`: `vSemaphoreCreateBinary` leaves it given, line 260 takes
    * that give, and from then on only a failed `wifi_connect` gives it.
    */
  class Supervisor {
    var disconCount: nat
    var stopPending: bool
    var timeoutRepeat: nat
    var allTimeout: bool
    var disconnects: nat
    var readyGiven: nat
    var wdtResets: nat
    var status: Status
    const hasMutex: bool

    function State(): WatchState
      reads this
    {
      WatchState(disconCount, stopPending, timeoutRepeat, allTimeout, disconnects, readyGiven, wdtResets, status)
    }

    /** `wifi_watch_task` up to its loop. */
    constructor (hasMutex: bool, gotIp: bool)
      ensures State() == Boot(gotIp, hasMutex) && this.hasMutex == hasMutex
    {
      this.hasMutex := hasMutex;
      disconCount := 0;
      stopPending := false;
      timeoutRepeat := 0;
      allTimeout := false;
      disconnects := 0;
      readyGiven := 0;
      wdtResets := 0;
      status := Running;
      new;
      var ok := Connect(gotIp);
      if ok && hasMutex {
        readyGiven := readyGiven + 1;
      }
    }

    /** `wifi_connect`. */
    method Connect(gotIp: bool) returns (ok: bool)
      modifies this
      ensures ok == gotIp && State() == AfterConnect(old(State()), gotIp)
    {
      if gotIp {
        disconCount := 0;
        ok := true;
      } else {
        disconCount := disconCount + 1;
        stopPending := true;
        ok := false;
      }
    }

    /** `ping_on_end`: `all_timeout` records whether no request was answered. */
    method PingOnEnd(received: nat)
      modifies this
      ensures State() == old(State()).(allTimeout := received == 0)
    {
      allTimeout := received == 0;
    }

    /** `ping_gateway`. */
    method PingGateway(cycle: PingCycle)
      modifies this
      ensures State() == old(State()).(allTimeout := AllTimeout(cycle))
    {
      match cycle
      case NoIpInfo =>
        allTimeout := true;
      case Probed(replies) =>
        PingOnEnd(Received(replies));
    }

    /** One pass of the `while (1)` loop. */
    method Step(round: Round)
      requires status == Running
      modifies this
      ensures State() == Iteration(old(State()), round, hasMutex)
    {
      if stopPending {
        stopPending := false;
        if disconCount >= FatalDisconCount {
          status := Restarted(ConnectFailures);
          return;
        }
        disconnects := disconnects + 1;  // wifi_disconnect
        var ok := Connect(round.gotIp);
        if ok && hasMutex {
          readyGiven := readyGiven + 1;
        }
      }
      PingGateway(round.cycle);
      if allTimeout {
        timeoutRepeat := timeoutRepeat + 1;
        if timeoutRepeat == TimeoutThreshold {
          status := Restarted(PingTimeouts);
          return;
        }
      } else {
        timeoutRepeat := 0;
      }
      wdtResets := wdtResets + 1;
    }

    /** The loop itself, fed one round at a time until the rounds run out or the device restarts. */
    method Watch(rounds: seq<Round>)
      modifies this
      ensures State() == Rounds(old(State()), rounds, hasMutex)
    {
      var i := 0;
      while i < |rounds| && status == Running
        invariant i <= |rounds|
        invariant Rounds(State(), rounds[i..], hasMutex) == Rounds(old(State()), rounds, hasMutex)
        decreases |rounds| - i
      {
        assert rounds[i..][1..] == rounds[i + 1..];
        Step(rounds[i]);
        i := i + 1;
      }
    }
  }
}
