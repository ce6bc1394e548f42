/** Histories of an SMTP session as the client sees them, and which recipients a
    message handed on at DATA may have. */
module SmtpTrace {
  import opened Text

  const MAX_RECIPIENTS: nat := 100

  /** One answered command. `Other` is every answer that changes nothing. */
  datatype Event<+R> =
    | HeloOk(domain: string)                // EHLO or HELO answered 250
    | MailOk(sender: string)                // MAIL answered 250
    | RcptOk(rcpt: R)                       // RCPT answered 250
    | RsetOk                                // RSET answered 250
    | TlsOk                                 // STARTTLS answered 220
    | AuthOk(account: int, address: string) // AUTH answered 235
    | Handed(sender: string, rcpts: seq<R>, bytes: string, code: nat)   // DATA complete
    | Other(code: nat)

  predicate EndsTransaction<R>(e: Event<R>) { e.HeloOk? || e.RsetOk? || e.TlsOk? || e.Handed? }

  /** j is the MAIL of the transaction in progress: accepted, with no later MAIL
      accepted and nothing in between that ends a transaction. */
  ghost predicate OpenedAt<R>(t: seq<Event<R>>, j: nat) {
    && j < |t| && t[j].MailOk?
    && forall k :: j < k < |t| ==> !t[k].MailOk? && !EndsTransaction(t[k])
  }

  /** The recipients answered 250, in order. */
  function Accepted<R>(t: seq<Event<R>>): seq<R> {
    if t == [] then []
    else Accepted(t[..|t| - 1]) + if t[|t| - 1].RcptOk? then [t[|t| - 1].rcpt] else []
  }

  /** The server's envelope is exactly what the history says. */
  ghost predicate Tracks<R>(t: seq<Event<R>>, mailFrom: Option<string>, rcpts: seq<R>) {
    if mailFrom.None? then rcpts == [] && forall j: nat :: !OpenedAt(t, j)
    else exists j: nat :: OpenedAt(t, j) && t[j].sender == mailFrom.value && rcpts == Accepted(t[j + 1..])
  }

  /** Whatever was handed on at i belongs to a transaction opened by an accepted
      MAIL with that sender, and goes to exactly the recipients answered 250 in it,
      in order, between one and a hundred. */
  ghost predicate Justified<R>(t: seq<Event<R>>, i: nat)
    requires i < |t|
  {
    t[i].Handed? ==>
      && 1 <= |t[i].rcpts| <= MAX_RECIPIENTS
      && exists j: nat :: OpenedAt(t[..i], j) && t[j].sender == t[i].sender && t[i].rcpts == Accepted(t[j + 1..i])
  }

  ghost predicate AllJustified<R>(t: seq<Event<R>>) { forall i: nat :: i < |t| ==> Justified(t, i) }

  /** At most one transaction is in progress, so "the" MAIL is well defined. */
  lemma {:induction false} OpenedOnce<R>(t: seq<Event<R>>, j: nat, k: nat)
    requires OpenedAt(t, j) && OpenedAt(t, k)
    ensures j == k
  {
  }

  // ------------------------------------------------------------------
  // How one more event moves the envelope
  // ------------------------------------------------------------------

  lemma {:induction false} OpenedGrows<R>(t: seq<Event<R>>, e: Event<R>, j: nat)
    requires OpenedAt(t, j) && !e.MailOk? && !EndsTransaction(e)
    ensures OpenedAt(t + [e], j) && (t + [e])[j] == t[j]
    ensures Accepted((t + [e])[j + 1..]) == Accepted(t[j + 1..]) + if e.RcptOk? then [e.rcpt] else []
  {
    var tail := t[j + 1..];
    assert (t + [e])[j + 1..] == tail + [e];
    assert (tail + [e])[..|tail|] == tail;
  }

  lemma {:induction false} OpenedBefore<R>(t: seq<Event<R>>, e: Event<R>, j: nat)
    requires OpenedAt(t + [e], j) && !e.MailOk?
    ensures OpenedAt(t, j)
  {
    assert forall k :: 0 <= k < |t| ==> (t + [e])[k] == t[k];
  }

  lemma {:induction false} OtherKeeps<R>(t: seq<Event<R>>, mailFrom: Option<string>, rcpts: seq<R>, e: Event<R>)
    requires Tracks(t, mailFrom, rcpts) && (e.Other? || e.AuthOk?)
    ensures Tracks(t + [e], mailFrom, rcpts)
  {
    if mailFrom.Some? {
      var j: nat :| OpenedAt(t, j) && t[j].sender == mailFrom.value && rcpts == Accepted(t[j + 1..]);
      OpenedGrows(t, e, j);
      assert Accepted(t[j + 1..]) + [] == Accepted(t[j + 1..]);
    } else {
      forall j: nat | OpenedAt(t + [e], j) ensures OpenedAt(t, j) { OpenedBefore(t, e, j); }
    }
  }

  lemma {:induction false} EndClears<R>(t: seq<Event<R>>, e: Event<R>)
    requires EndsTransaction(e)
    ensures Tracks(t + [e], None, [])
  {
    assert (t + [e])[|t|] == e;
  }

  lemma {:induction false} MailOpens<R>(t: seq<Event<R>>, sender: string)
    ensures Tracks(t + [MailOk(sender)], Some(sender), [])
  {
    var t' := t + [MailOk(sender)];
    assert t'[|t| + 1..] == [];
    assert OpenedAt(t', |t|);
  }

  lemma {:induction false} RcptAdds<R>(t: seq<Event<R>>, mailFrom: Option<string>, rcpts: seq<R>, r: R)
    requires Tracks(t, mailFrom, rcpts) && mailFrom.Some?
    ensures Tracks(t + [RcptOk(r)], mailFrom, rcpts + [r])
  {
    var j: nat :| OpenedAt(t, j) && t[j].sender == mailFrom.value && rcpts == Accepted(t[j + 1..]);
    OpenedGrows(t, RcptOk(r), j);
  }

  lemma {:induction false} HandingIsJustified<R>(t: seq<Event<R>>, mailFrom: Option<string>, rcpts: seq<R>, bytes: string, code: nat)
    requires AllJustified(t) && Tracks(t, mailFrom, rcpts) && mailFrom.Some? && 1 <= |rcpts| <= MAX_RECIPIENTS
    ensures AllJustified(t + [Handed(mailFrom.value, rcpts, bytes, code)])
  {
    var t' := t + [Handed(mailFrom.value, rcpts, bytes, code)];
    var j: nat :| OpenedAt(t, j) && t[j].sender == mailFrom.value && rcpts == Accepted(t[j + 1..]);
    assert t'[..|t|] == t;
    assert t'[j + 1..|t|] == t[j + 1..];
    assert Justified(t', |t|);
    forall i: nat | i < |t| ensures Justified(t', i) { PrefixJustified(t, t'[|t|], i); }
  }

  lemma {:induction false} PrefixJustified<R>(t: seq<Event<R>>, e: Event<R>, i: nat)
    requires i < |t| && Justified(t, i)
    ensures Justified(t + [e], i)
  {
    var t' := t + [e];
    assert t'[..i] == t[..i];
    if t[i].Handed? {
      var j: nat :| OpenedAt(t[..i], j) && t[j].sender == t[i].sender && t[i].rcpts == Accepted(t[j + 1..i]);
      assert t'[j + 1..i] == t[j + 1..i];
    }
  }

  lemma {:induction false} StaysJustified<R>(t: seq<Event<R>>, e: Event<R>)
    requires AllJustified(t) && !e.Handed?
    ensures AllJustified(t + [e])
  {
    forall i: nat | i < |t| ensures Justified(t + [e], i) { PrefixJustified(t, e, i); }
  }

  // ------------------------------------------------------------------
  // The session's state as a function of its history
  // ------------------------------------------------------------------

  /** The sender of the transaction in progress. */
  function Mail<R>(t: seq<Event<R>>): Option<string> {
    if t == [] then None
    else
      var e := t[|t| - 1];
      if e.MailOk? then Some(e.sender) else if EndsTransaction(e) then None else Mail(t[..|t| - 1])
  }

  /** Its recipients. */
  function Rcpts<R>(t: seq<Event<R>>): seq<R> {
    if t == [] then []
    else
      var e, before := t[|t| - 1], t[..|t| - 1];
      if e.MailOk? || EndsTransaction(e) then []
      else if e.RcptOk? && Mail(before).Some? then Rcpts(before) + [e.rcpt]
      else Rcpts(before)
  }

  /** HELO or EHLO was accepted since the connection, or TLS, began. */
  predicate Greeted<R>(t: seq<Event<R>>) {
    t != [] && (t[|t| - 1].HeloOk? || (!t[|t| - 1].TlsOk? && Greeted(t[..|t| - 1])))
  }

  /** The account AUTH accepted since TLS began, with its address. */
  function Authenticated<R>(t: seq<Event<R>>): Option<(int, string)> {
    if t == [] then None
    else
      var e := t[|t| - 1];
      if e.AuthOk? then Some((e.account, e.address)) else if e.TlsOk? then None else Authenticated(t[..|t| - 1])
  }

  /** j is the last of its kind: nothing after it undoes it. */
  ghost predicate GreetedAt<R>(t: seq<Event<R>>, j: nat) {
    j < |t| && t[j].HeloOk? && forall k :: j < k < |t| ==> !t[k].TlsOk?
  }

  lemma {:induction false} GreetedExactly<R>(t: seq<Event<R>>)
    ensures Greeted(t) <==> exists j: nat :: GreetedAt(t, j)
  {
    if t == [] {
    } else {
      var n := |t| - 1;
      GreetedExactly(t[..n]);
      if t[n].HeloOk? {
        assert GreetedAt(t, n);
      } else if !t[n].TlsOk? {
        forall j: nat ensures GreetedAt(t, j) <==> GreetedAt(t[..n], j) {
          assert j < n ==> t[j] == t[..n][j];
        }
      }
    }
  }

  ghost predicate AuthenticatedAt<R>(t: seq<Event<R>>, j: nat, account: (int, string)) {
    j < |t| && t[j] == AuthOk(account.0, account.1) && forall k :: j < k < |t| ==> !t[k].TlsOk? && !t[k].AuthOk?
  }

  lemma {:induction false} AuthenticatedExactly<R>(t: seq<Event<R>>, account: (int, string))
    ensures Authenticated(t) == Some(account) <==> exists j: nat :: AuthenticatedAt(t, j, account)
  {
    if t == [] {
    } else {
      var n := |t| - 1;
      AuthenticatedExactly(t[..n], account);
      if t[n].AuthOk? {
        assert t[n] == AuthOk(account.0, account.1) ==> AuthenticatedAt(t, n, account);
      } else if !t[n].TlsOk? {
        forall j: nat ensures AuthenticatedAt(t, j, account) <==> AuthenticatedAt(t[..n], j, account) {
          assert j < n ==> t[j] == t[..n][j];
        }
      }
    }
  }

  /** The k-th recipient accepted was answered 250 somewhere. */
  lemma {:induction false} AcceptedWhere<R>(t: seq<Event<R>>, k: nat) returns (j: nat)
    requires k < |Accepted(t)|
    ensures j < |t| && t[j] == RcptOk(Accepted(t)[k])
  {
    var n := |t| - 1;
    if k < |Accepted(t[..n])| {
      j := AcceptedWhere(t[..n], k);
    } else {
      j := n;
    }
  }

  lemma {:induction false} OneMore<R>(t: seq<Event<R>>, e: Event<R>)
    ensures Mail(t + [e]) == if e.MailOk? then Some(e.sender) else if EndsTransaction(e) then None else Mail(t)
    ensures Rcpts(t + [e]) == if e.MailOk? || EndsTransaction(e) then []
                              else if e.RcptOk? && Mail(t).Some? then Rcpts(t) + [e.rcpt] else Rcpts(t)
    ensures Greeted(t + [e]) == (e.HeloOk? || (!e.TlsOk? && Greeted(t)))
    ensures Authenticated(t + [e]) == if e.AuthOk? then Some((e.account, e.address)) else if e.TlsOk? then None else Authenticated(t)
  {
    assert (t + [e])[..|t|] == t && (t + [e])[|t|] == e;
  }

  /** A reply that changes nothing. */
  method Say<R>(t: seq<Event<R>>, code: nat) returns (t': seq<Event<R>>)
    ensures t' == t + [Other(code)] && Mail(t') == Mail(t) && Rcpts(t') == Rcpts(t)
    ensures Greeted(t') == Greeted(t) && Authenticated(t') == Authenticated(t)
  {
    OneMore(t, Other(code));
    t' := t + [Other(code)];
  }

  /** For every history, they are the open MAIL and the recipients accepted since. */
  lemma {:induction false} StateTracks<R>(t: seq<Event<R>>)
    ensures Tracks(t, Mail(t), Rcpts(t))
  {
    if t == [] {
    } else {
      var before, e := t[..|t| - 1], t[|t| - 1];
      assert t == before + [e];
      StateTracks(before);
      OneMore(before, e);
      if e.MailOk? {
        MailOpens(before, e.sender);
      } else if EndsTransaction(e) {
        EndClears(before, e);
      } else if e.RcptOk? && Mail(before).Some? {
        RcptAdds(before, Mail(before), Rcpts(before), e.rcpt);
      } else if e.RcptOk? {
        forall j: nat | OpenedAt(t, j) ensures OpenedAt(before, j) { OpenedBefore(before, e, j); }
      } else {
        OtherKeeps(before, Mail(before), Rcpts(before), e);
      }
    }
  }
}
