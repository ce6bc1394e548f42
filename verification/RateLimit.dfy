/** The rolling per-account send limit of `enqueue`
    (crates/queue/src/enqueue.rs). */
module RateLimit {
  import opened QueueTypes

  const RATE_LIMIT_WINDOW_SECS: int := 3600
  const MAX_MESSAGES_PER_WINDOW: int := 200
  const MAX_RECIPIENTS_PER_WINDOW: int := 500

  /** How many messages of this account, reports aside, are younger than `since`. */
  function MessagesSince(outbound: seq<Outbound>, account: int, since: int): nat {
    if outbound == [] then 0
    else
      var o := outbound[|outbound| - 1];
      MessagesSince(outbound[..|outbound| - 1], account, since)
      + if Counts(o, account) && o.createdAt > since then 1 else 0
  }

  /** How many recipients such messages have together. */
  function RecipientsSince(outbound: seq<Outbound>, rcpts: seq<Rcpt>, account: int, since: int): nat {
    if rcpts == [] then 0
    else
      var r := rcpts[|rcpts| - 1];
      RecipientsSince(outbound, rcpts[..|rcpts| - 1], account, since)
      + if r.outboundId < |outbound| && Counts(outbound[r.outboundId], account)
           && outbound[r.outboundId].createdAt > since then 1 else 0
  }

  predicate Counts(o: Outbound, account: int) { o.accountId == account && !o.isDsn }

  predicate WithinLimits(outbound: seq<Outbound>, rcpts: seq<Rcpt>, msg: NewOutbound, now: int) {
    var since := now - RATE_LIMIT_WINDOW_SECS;
    msg.isDsn ||
    (&& MessagesSince(outbound, msg.accountId, since) < MAX_MESSAGES_PER_WINDOW
     && RecipientsSince(outbound, rcpts, msg.accountId, since) + |msg.recipients| <= MAX_RECIPIENTS_PER_WINDOW)
  }

  /** The account's messages, reports aside, created after `since`. */
  ghost function Recent(outbound: seq<Outbound>, account: int, since: int): set<nat> {
    set i: nat | i < |outbound| && outbound[i].accountId == account && !outbound[i].isDsn && since < outbound[i].createdAt
  }

  /** Their recipients. */
  ghost function RecentRcpts(outbound: seq<Outbound>, rcpts: seq<Rcpt>, account: int, since: int): set<nat> {
    set j: nat | j < |rcpts| && rcpts[j].outboundId in Recent(outbound, account, since)
  }

  lemma {:induction false} CountsMessages(outbound: seq<Outbound>, account: int, since: int)
    ensures MessagesSince(outbound, account, since) == |Recent(outbound, account, since)|
  {
    if outbound == [] {
    } else {
      var n := |outbound| - 1;
      CountsMessages(outbound[..n], account, since);
      var last: set<nat> := if Counts(outbound[n], account) && outbound[n].createdAt > since then {n} else {};
      assert Recent(outbound, account, since) == Recent(outbound[..n], account, since) + last;
    }
  }

  lemma {:induction false} CountsRecipients(outbound: seq<Outbound>, rcpts: seq<Rcpt>, account: int, since: int)
    ensures RecipientsSince(outbound, rcpts, account, since) == |RecentRcpts(outbound, rcpts, account, since)|
  {
    if rcpts == [] {
    } else {
      var n := |rcpts| - 1;
      CountsRecipients(outbound, rcpts[..n], account, since);
      var last: set<nat> := if rcpts[n].outboundId in Recent(outbound, account, since) then {n} else {};
      assert RecentRcpts(outbound, rcpts, account, since) == RecentRcpts(outbound, rcpts[..n], account, since) + last;
    }
  }

  /** A report always fits; another message exactly if the account created fewer than 200 in
      the last hour and, with this one, they have at most 500 recipients. */
  lemma {:induction false} FitsExactly(outbound: seq<Outbound>, rcpts: seq<Rcpt>, msg: NewOutbound, now: int)
    ensures WithinLimits(outbound, rcpts, msg, now) <==>
      msg.isDsn || (&& |Recent(outbound, msg.accountId, now - 3600)| < 200
                    && |RecentRcpts(outbound, rcpts, msg.accountId, now - 3600)| + |msg.recipients| <= 500)
  {
    CountsMessages(outbound, msg.accountId, now - 3600);
    CountsRecipients(outbound, rcpts, msg.accountId, now - 3600);
  }

  // ------------------------------------------------------------------
  // The law: every window, not just the ones that end at an enqueue.
  // ------------------------------------------------------------------

  predicate InWindow(o: Outbound, account: int, end: int) {
    Counts(o, account) && end - RATE_LIMIT_WINDOW_SECS < o.createdAt <= end
  }

  ghost function MessagesInWindow(outbound: seq<Outbound>, account: int, end: int): nat {
    if outbound == [] then 0
    else MessagesInWindow(outbound[..|outbound| - 1], account, end)
         + if InWindow(outbound[|outbound| - 1], account, end) then 1 else 0
  }

  ghost function RecipientsInWindow(outbound: seq<Outbound>, rcpts: seq<Rcpt>, account: int, end: int): nat {
    if rcpts == [] then 0
    else
      var r := rcpts[|rcpts| - 1];
      RecipientsInWindow(outbound, rcpts[..|rcpts| - 1], account, end)
      + if r.outboundId < |outbound| && InWindow(outbound[r.outboundId], account, end) then 1 else 0
  }

  ghost predicate WindowsRespected(outbound: seq<Outbound>, rcpts: seq<Rcpt>) {
    forall account: int, end: int ::
      && MessagesInWindow(outbound, account, end) <= MAX_MESSAGES_PER_WINDOW
      && RecipientsInWindow(outbound, rcpts, account, end) <= MAX_RECIPIENTS_PER_WINDOW
  }

  lemma {:induction false} WindowBelowSince(outbound: seq<Outbound>, account: int, end: int, since: int)
    requires since <= end - RATE_LIMIT_WINDOW_SECS
    ensures MessagesInWindow(outbound, account, end) <= MessagesSince(outbound, account, since)
  {
    if outbound == [] {
    } else {
      WindowBelowSince(outbound[..|outbound| - 1], account, end, since);
    }
  }

  lemma {:induction false} RecipientWindowBelowSince(
    outbound: seq<Outbound>, rcpts: seq<Rcpt>, account: int, end: int, since: int)
    requires since <= end - RATE_LIMIT_WINDOW_SECS
    ensures RecipientsInWindow(outbound, rcpts, account, end) <= RecipientsSince(outbound, rcpts, account, since)
  {
    if rcpts == [] {
    } else {
      RecipientWindowBelowSince(outbound, rcpts[..|rcpts| - 1], account, end, since);
    }
  }

  /** A new outbound row changes no count over rows that do not refer to it. */
  lemma {:induction false} OldRecipientsUnaffected(
    outbound: seq<Outbound>, o: Outbound, rcpts: seq<Rcpt>, account: int, end: int)
    requires forall i :: 0 <= i < |rcpts| ==> rcpts[i].outboundId < |outbound|
    ensures RecipientsInWindow(outbound + [o], rcpts, account, end) == RecipientsInWindow(outbound, rcpts, account, end)
  {
    if rcpts == [] {
    } else {
      OldRecipientsUnaffected(outbound, o, rcpts[..|rcpts| - 1], account, end);
    }
  }

  /** Appending recipients of one message adds at most their number, and nothing
      when the message is outside the window. */
  lemma {:induction false} NewRecipientsCount(
    outbound: seq<Outbound>, rcpts: seq<Rcpt>, added: seq<Rcpt>, account: int, end: int)
    requires outbound != []
    requires forall i :: 0 <= i < |added| ==> added[i].outboundId == |outbound| - 1
    ensures RecipientsInWindow(outbound, rcpts + added, account, end)
         == RecipientsInWindow(outbound, rcpts, account, end)
            + if InWindow(outbound[|outbound| - 1], account, end) then |added| else 0
  {
    if added == [] {
      assert rcpts + added == rcpts;
    } else {
      var k := |added| - 1;
      assert (rcpts + added)[..|rcpts| + k] == rcpts + added[..k];
      NewRecipientsCount(outbound, rcpts, added[..k], account, end);
    }
  }

  /** The inductive step: whatever the clock says, an insert that passed the
      check keeps every window of every account within both limits. */
  lemma {:induction false} InsertKeepsWindows(
    outbound: seq<Outbound>, rcpts: seq<Rcpt>, msg: NewOutbound, o: Outbound, added: seq<Rcpt>)
    requires WindowsRespected(outbound, rcpts)
    requires forall i :: 0 <= i < |rcpts| ==> rcpts[i].outboundId < |outbound|
    requires WithinLimits(outbound, rcpts, msg, o.createdAt)
    requires o.accountId == msg.accountId && o.isDsn == msg.isDsn
    requires |added| <= |msg.recipients|
    requires forall i :: 0 <= i < |added| ==> added[i].outboundId == |outbound|
    ensures WindowsRespected(outbound + [o], rcpts + added)
  {
    forall account: int, end: int
      ensures MessagesInWindow(outbound + [o], account, end) <= MAX_MESSAGES_PER_WINDOW
      ensures RecipientsInWindow(outbound + [o], rcpts + added, account, end) <= MAX_RECIPIENTS_PER_WINDOW
    {
      assert (outbound + [o])[..|outbound|] == outbound;
      OldRecipientsUnaffected(outbound, o, rcpts, account, end);
      NewRecipientsCount(outbound + [o], rcpts, added, account, end);
      if InWindow(o, account, end) {
        var since := o.createdAt - RATE_LIMIT_WINDOW_SECS;
        WindowBelowSince(outbound, account, end, since);
        RecipientWindowBelowSince(outbound, rcpts, account, end, since);
      }
    }
  }

  /** Counts over recipients look only at which message a row belongs to, so
      worker updates that keep row identities keep the windows. */
  lemma {:induction false} SameRefsSameCount(
    outbound: seq<Outbound>, rcpts: seq<Rcpt>, rcpts': seq<Rcpt>, account: int, end: int)
    requires |rcpts'| == |rcpts|
    requires forall i :: 0 <= i < |rcpts| ==> rcpts'[i].outboundId == rcpts[i].outboundId
    ensures RecipientsInWindow(outbound, rcpts', account, end) == RecipientsInWindow(outbound, rcpts, account, end)
  {
    if rcpts == [] {
    } else {
      SameRefsSameCount(outbound, rcpts[..|rcpts| - 1], rcpts'[..|rcpts| - 1], account, end);
    }
  }

  /** Leaving out rows at the end keeps the windows. */
  lemma {:induction false} FewerRows(outbound: seq<Outbound>, rcpts: seq<Rcpt>, more: seq<Rcpt>)
    requires WindowsRespected(outbound, rcpts + more)
    ensures WindowsRespected(outbound, rcpts)
  {
    forall account: int, end: int ensures RecipientsInWindow(outbound, rcpts, account, end) <= MAX_RECIPIENTS_PER_WINDOW {
      MoreRowsCountMore(outbound, rcpts, more, account, end);
    }
  }

  lemma {:induction false} MoreRowsCountMore(
    outbound: seq<Outbound>, rcpts: seq<Rcpt>, more: seq<Rcpt>, account: int, end: int)
    ensures RecipientsInWindow(outbound, rcpts, account, end) <= RecipientsInWindow(outbound, rcpts + more, account, end)
  {
    if more == [] {
      assert rcpts + more == rcpts;
    } else {
      var k := |more| - 1;
      assert (rcpts + more)[..|rcpts| + k] == rcpts + more[..k];
      MoreRowsCountMore(outbound, rcpts, more[..k], account, end);
    }
  }
}
