/** `/view_trials` of the current revision: the trial-lesson entries are packed greedily
    into messages under Telegram's 4096-character limit. Each entry is given already
    formatted; the formatting of its fields and dates is not modelled. */
module TrialList {
  import opened Text

  /** Telegram's message length limit, as `view_trials` states it. */
  const Limit: nat := 4096

  const Header: string := "📋 Записи на пробные занятия:\n\n"
  const NoRightsText: string := "У вас нет прав для выполнения этой команды."
  const NoTrialsText: string := "На данный момент записей на пробные занятия нет."

  /** The messages sent, starting from the pending `message`: an entry joins the
      pending message, followed by a newline, when the two together (without that
      newline) are at most `Limit` long; otherwise the pending message is sent and the
      entry starts the next one. The last pending message is sent if non-empty. */
  function Pack(message: string, trials: seq<string>): seq<string>
    decreases |trials|
  {
    if trials == [] then (if message != [] then [message] else [])
    else if |message + trials[0]| > Limit then [message] + Pack(trials[0], trials[1..])
    else Pack(message + trials[0] + "\n", trials[1..])
  }

  /** `view_trials`: non-admins are refused and an empty list is reported; otherwise the
      messages, read one after the other, are the header and then every entry exactly
      once, in order, with only newlines added, and no message is more than one character
      over the limit unless it is a single entry that is over it by itself. */
  function ViewTrials(isAdmin: bool, trials: seq<string>): (r: seq<string>)
    ensures !isAdmin ==> r == [NoRightsText]
    ensures isAdmin && trials == [] ==> r == [NoTrialsText]
    ensures isAdmin && trials != [] ==>
              Concat(r) == Header + Interleave(trials, NewlineAfter(Header, trials))
    ensures forall m :: m in r ==> |m| <= Limit + 1 || m in trials
  {
    if !isAdmin then [NoRightsText]
    else if trials == [] then [NoTrialsText]
    else
      PackKeepsEveryTrial(Header, trials);
      PackBound(Header, trials, trials);
      Pack(Header, trials)
  }

  /** The loop of `view_trials`, sending as it goes. */
  method SendTrials(trials: seq<string>) returns (sent: seq<string>)
    ensures sent == Pack(Header, trials)
  {
    var message := Header;
    sent := [];
    for i := 0 to |trials|
      invariant sent + Pack(message, trials[i..]) == Pack(Header, trials)
    {
      assert trials[i..][0] == trials[i] && trials[i..][1..] == trials[i + 1..];
      if |message + trials[i]| > Limit {
        sent := sent + [message];
        message := trials[i];
      } else {
        message := message + trials[i] + "\n";
      }
    }
    if message != [] {
      sent := sent + [message];
    }
  }

  // ---------------------------------------------------------------------------
  // Nothing lost, nothing repeated, order kept

  /** Whether each entry was followed by a newline: it was when it joined a pending
      message, not when it started a new one. */
  function NewlineAfter(message: string, trials: seq<string>): (r: seq<bool>)
    ensures |r| == |trials|
    decreases |trials|
  {
    if trials == [] then []
    else if |message + trials[0]| > Limit then [false] + NewlineAfter(trials[0], trials[1..])
    else [true] + NewlineAfter(message + trials[0] + "\n", trials[1..])
  }

  /** The entries in order, each followed by a newline where the flag says so. */
  function Interleave(trials: seq<string>, newline: seq<bool>): string
    requires |newline| == |trials|
  {
    if trials == [] then []
    else trials[0] + (if newline[0] then "\n" else "") + Interleave(trials[1..], newline[1..])
  }

  /** Read one after the other, the messages are the pending text followed by every
      entry exactly once, in order, with only newlines added between them. */
  lemma {:induction false} PackKeepsEveryTrial(message: string, trials: seq<string>)
    ensures Concat(Pack(message, trials)) == message + Interleave(trials, NewlineAfter(message, trials))
    decreases |trials|
  {
    var flags := NewlineAfter(message, trials);
    if trials == [] {
      if message != [] {
        assert Concat([message]) == message + Concat([]);
      }
    } else if |message + trials[0]| > Limit {
      PackKeepsEveryTrial(trials[0], trials[1..]);
      var rest := Pack(trials[0], trials[1..]);
      assert ([message] + rest)[1..] == rest;
      assert Concat([message] + rest) == message + Concat(rest);
      assert flags[1..] == NewlineAfter(trials[0], trials[1..]);
    } else {
      var next := message + trials[0] + "\n";
      PackKeepsEveryTrial(next, trials[1..]);
      assert flags[1..] == NewlineAfter(next, trials[1..]);
    }
  }

  // ---------------------------------------------------------------------------
  // Message length

  /** Every message is at most one character over the limit, unless it is a single
      entry that is over the limit by itself. */
  lemma {:induction false} PackBound(message: string, trials: seq<string>, all: seq<string>)
    requires |message| <= Limit + 1 || message in all
    requires forall t :: t in trials ==> t in all
    ensures forall m :: m in Pack(message, trials) ==> |m| <= Limit + 1 || m in all
    decreases |trials|
  {
    if trials != [] {
      assert trials[0] in all;
      assert forall t :: t in trials[1..] ==> t in trials;
      if |message + trials[0]| > Limit {
        PackBound(trials[0], trials[1..], all);
      } else {
        PackBound(message + trials[0] + "\n", trials[1..], all);
      }
    }
  }

  /** The pending text plus an entry may fill exactly `Limit` characters; the newline
      appended after the entry then makes a 4097-character message. */
  lemma PackOverLimit()
    ensures var trial := seq(Limit - |Header|, _ => 'x');
            |Pack(Header, [trial])| == 1 && |Pack(Header, [trial])[0]| == Limit + 1
  {
    var trial := seq(Limit - |Header|, _ => 'x');
    assert |Header + trial| == Limit;
    assert [trial][1..] == [];
    assert Pack(Header + trial + "\n", []) == [Header + trial + "\n"];
  }

  /** Packing that counts the newline an entry brings with it. */
  function PackFixed(message: string, trials: seq<string>): seq<string>
    decreases |trials|
  {
    if trials == [] then (if message != [] then [message] else [])
    else if |message + trials[0] + "\n"| > Limit then [message] + PackFixed(trials[0], trials[1..])
    else PackFixed(message + trials[0] + "\n", trials[1..])
  }

  /** With the newline counted, no message exceeds the limit unless it is a single entry
      that does so by itself. */
  lemma {:induction false} PackFixedBound(message: string, trials: seq<string>, all: seq<string>)
    requires |message| <= Limit || message in all
    requires forall t :: t in trials ==> t in all
    ensures forall m :: m in PackFixed(message, trials) ==> |m| <= Limit || m in all
    decreases |trials|
  {
    if trials != [] {
      assert trials[0] in all;
      assert forall t :: t in trials[1..] ==> t in trials;
      if |message + trials[0] + "\n"| > Limit {
        PackFixedBound(trials[0], trials[1..], all);
      } else {
        PackFixedBound(message + trials[0] + "\n", trials[1..], all);
      }
    }
  }
}
