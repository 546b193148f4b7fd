/** Status-code handling, message construction and the group-membership gate of
    `automated_email_sending.py`. Each Microsoft Graph endpoint is an oracle that
    answers a request with a status code (plus the id fields the code reads); the
    requests a call makes are recorded as a trace, so "no send request unless the
    sender is in the group" is a statement about that trace. */
module GraphMail {
  import opened Wrappers
  import opened Attachments

  /** The group every sender must belong to (hard-coded in both send functions). */
  const AuthorizationGroup := "Corp_DataEng_AutomatedEmail"

  const StatusOk := 200
  const StatusAccepted := 202
  const StatusNoContent := 204

  // ---------------------------------------------------------------------------
  // Lookups

  /** Response to `GET /users/{email}`: status and the `id` field of the body. */
  datatype UserResponse = UserResponse(status: int, id: string)

  /** Response to the group search by display name: status and the `id` of each
      element of the `value` list, in order (empty when `value` is missing). */
  datatype GroupResponse = GroupResponse(status: int, ids: seq<string>)

  /** `get_user_id_from_email`: the id on 200; `None` on 403 and on every other
      status (the two differ only in the message printed). */
  function UserIdFromResponse(resp: UserResponse): (r: Option<string>)
    ensures r.Some? <==> resp.status == StatusOk
    ensures r.Some? ==> r.value == resp.id
  {
    if resp.status == StatusOk then Some(resp.id) else None
  }

  /** `get_group_id_from_name`: on 200 the first listed group's id, `None` when the
      list is empty or the status is anything else. */
  function GroupIdFromResponse(resp: GroupResponse): (r: Option<string>)
    ensures r.Some? <==> resp.status == StatusOk && |resp.ids| > 0
    ensures r.Some? ==> r.value == resp.ids[0] && r.value in resp.ids
  {
    if resp.status == StatusOk then
      if |resp.ids| > 0 then Some(resp.ids[0]) else None
    else None
  }

  /** `check_user_in_group`: 204 and 200 mean member; 404 and every other status
      mean not a member. */
  function IsMemberFromStatus(status: int): (member: bool)
    ensures member <==> status == StatusOk || status == StatusNoContent
    ensures status == 404 ==> !member
  {
    if status == StatusNoContent then true
    else if status == StatusOk then true
    else false
  }

  // ---------------------------------------------------------------------------
  // The message

  datatype EmailAddress = EmailAddress(address: string)
  datatype Recipient = Recipient(emailAddress: EmailAddress)
  datatype ItemBody = ItemBody(contentType: string, content: string)

  /** The `message` object posted to `sendMail`; `attachments` is `None` when the key is absent. */
  datatype Message = Message(subject: string, body: ItemBody, toRecipients: seq<Recipient>,
                             attachments: Option<seq<Attachment>>)

  /** The `to_recipients` list comprehension: one address object per recipient, in order. */
  function ToRecipients(to: seq<string>): (r: seq<Recipient>)
    ensures |r| == |to|
    ensures forall i :: 0 <= i < |r| ==> r[i].emailAddress.address == to[i]
  {
    if |to| == 0 then [] else [Recipient(EmailAddress(to[0]))] + ToRecipients(to[1..])
  }

  /** The addresses a recipient list names, in order. */
  function Addresses(rs: seq<Recipient>): seq<string> {
    if |rs| == 0 then [] else [rs[0].emailAddress.address] + Addresses(rs[1..])
  }

  /** Recipient objects carry exactly the given addresses. */
  lemma {:induction false} AddressesOfRecipients(to: seq<string>)
    ensures Addresses(ToRecipients(to)) == to
  {
    if |to| > 0 {
      AddressesOfRecipients(to[1..]);
      assert ToRecipients(to)[1..] == ToRecipients(to[1..]);
    }
  }

  /** Every recipient list is the one built from its own addresses. */
  lemma {:induction false} RecipientsOfAddresses(rs: seq<Recipient>)
    ensures ToRecipients(Addresses(rs)) == rs
  {
    if |rs| > 0 {
      RecipientsOfAddresses(rs[1..]);
      assert Addresses(rs)[1..] == Addresses(rs[1..]);
    }
  }

  /** The `email_message` payload; the `attachments` key is added only for a non-empty list. */
  function ComposeMessage(subject: string, contentType: string, content: string,
                          to: seq<string>, atts: seq<Attachment>): (m: Message)
    ensures m.subject == subject && m.body == ItemBody(contentType, content)
    ensures Addresses(m.toRecipients) == to
    ensures m.attachments.Some? <==> |atts| > 0
    ensures m.attachments.Some? ==> m.attachments.value == atts
  {
    AddressesOfRecipients(to);
    Message(subject, ItemBody(contentType, content), ToRecipients(to),
            if |atts| > 0 then Some(atts) else None)
  }

  // ---------------------------------------------------------------------------
  // Dispatch

  /** The Graph service as seen by the send functions: one oracle per endpoint.
      `membership` receives the group and user ids exactly as the lookups returned
      them, `None` included, since the source does not stop when a lookup fails. */
  datatype Graph = Graph(
    users: string -> UserResponse,
    groups: string -> GroupResponse,
    membership: (Option<string>, Option<string>) -> int,
    sendMail: (string, Message) -> int)

  datatype Request =
    | LookupGroup(name: string)
    | LookupUser(email: string)
    | CheckMembership(groupId: Option<string>, userId: Option<string>)
    | SendMail(sender: string, message: Message)

  /** What a send call ends with: the mail was accepted (202), the send was answered
      with another status, the sender is not in the group, or packaging raised. */
  datatype Outcome = Sent | SendFailed(status: int) | NotInGroup | Raised(error: PackagingError)

  datatype Dispatch = Dispatch(requests: seq<Request>, outcome: Outcome)

  function SendRequestCount(rs: seq<Request>): nat {
    if |rs| == 0 then 0 else (if rs[0].SendMail? then 1 else 0) + SendRequestCount(rs[1..])
  }

  /** The group membership of the sender as the source decides it: the ids returned
      by the two lookups, passed to the membership endpoint. */
  predicate SenderInGroup(graph: Graph, sender: string) {
    var groupId := GroupIdFromResponse(graph.groups(AuthorizationGroup));
    var userId := UserIdFromResponse(graph.users(sender));
    IsMemberFromStatus(graph.membership(groupId, userId))
  }

  /** The hard gate, stated on a request trace: every send request is preceded by a
      membership check, for the looked-up authorisation group and sender, that the
      service answered with 200 or 204. */
  ghost predicate GateRespected(graph: Graph, sender: string, rs: seq<Request>) {
    forall j :: 0 <= j < |rs| && rs[j].SendMail? ==>
      exists i :: 0 <= i < j && rs[i] == CheckMembership(
                    GroupIdFromResponse(graph.groups(AuthorizationGroup)),
                    UserIdFromResponse(graph.users(sender)))
                  && graph.membership(rs[i].groupId, rs[i].userId) in {StatusOk, StatusNoContent}
  }

  /** The shared tail of both send functions: look up the group, then the sender,
      check membership, and post the message only for a member. */
  function DispatchMessage(graph: Graph, sender: string, message: Message): (d: Dispatch)
    ensures SendRequestCount(d.requests) <= 1
    ensures SendRequestCount(d.requests) == 1 <==> SenderInGroup(graph, sender)
    ensures GateRespected(graph, sender, d.requests)
    ensures forall r :: r in d.requests && r.SendMail? ==> r == SendMail(sender, message)
    ensures d.outcome.NotInGroup? <==> !SenderInGroup(graph, sender)
    ensures d.outcome == Sent <==> SenderInGroup(graph, sender) && graph.sendMail(sender, message) == StatusAccepted
    ensures d.outcome.SendFailed? ==> d.outcome.status == graph.sendMail(sender, message) != StatusAccepted
    ensures !d.outcome.Raised?
  {
    var groupId := GroupIdFromResponse(graph.groups(AuthorizationGroup));
    var userId := UserIdFromResponse(graph.users(sender));
    var checks := [LookupGroup(AuthorizationGroup), LookupUser(sender), CheckMembership(groupId, userId)];
    assert SendRequestCount(checks) == 0 by {
      assert checks[1..] == [LookupUser(sender), CheckMembership(groupId, userId)];
      assert checks[1..][1..] == [CheckMembership(groupId, userId)];
      assert checks[1..][1..][1..] == [];
      assert SendRequestCount(checks[1..][1..]) == 0;
      assert SendRequestCount(checks[1..]) == 0;
    }
    if IsMemberFromStatus(graph.membership(groupId, userId)) then
      var status := graph.sendMail(sender, message);
      var rs := checks + [SendMail(sender, message)];
      SendRequestCountAppend(checks, [SendMail(sender, message)]);
      assert rs[2] == CheckMembership(groupId, userId);
      Dispatch(rs, if status == StatusAccepted then Sent else SendFailed(status))
    else
      Dispatch(checks, NotInGroup)
  }

  lemma {:induction false} SendRequestCountAppend(a: seq<Request>, b: seq<Request>)
    ensures SendRequestCount(a + b) == SendRequestCount(a) + SendRequestCount(b)
  {
    if |a| == 0 {
      assert a + b == b;
    } else {
      assert (a + b)[1..] == a[1..] + b;
      SendRequestCountAppend(a[1..], b);
    }
  }

  /** `send_email_no_attachment`: a member's message is posted once, carrying the
      given subject, body and recipients and no `attachments` key; the call ends
      "sent" exactly when that post is answered with 202. */
  function SendEmailNoAttachment(graph: Graph, sender: string, to: seq<string>, subject: string,
                                 contentType: string, content: string): (d: Dispatch)
    ensures SendRequestCount(d.requests) == (if SenderInGroup(graph, sender) then 1 else 0)
    ensures GateRespected(graph, sender, d.requests)
    ensures forall r :: r in d.requests && r.SendMail? ==>
      && r.sender == sender
      && r.message.subject == subject && r.message.body == ItemBody(contentType, content)
      && Addresses(r.message.toRecipients) == to
      && r.message.attachments.None?
    ensures d.outcome.NotInGroup? <==> !SenderInGroup(graph, sender)
    ensures d.outcome == Sent <==>
      SenderInGroup(graph, sender)
      && graph.sendMail(sender, ComposeMessage(subject, contentType, content, to, [])) == StatusAccepted
    ensures d.outcome.SendFailed? ==>
      d.outcome.status == graph.sendMail(sender, ComposeMessage(subject, contentType, content, to, []))
      && d.outcome.status != StatusAccepted
    ensures !d.outcome.Raised?
  {
    DispatchMessage(graph, sender, ComposeMessage(subject, contentType, content, to, []))
  }

  /** `send_email_with_attachments`: the attachments are packaged first, so an
      `IndexError` there ends the call before any request is made. Otherwise a
      member's message is posted once, carrying the given subject, body and
      recipients and, when packaging produced any, exactly the packaged attachments;
      the call ends "sent" exactly when that post is answered with 202. */
  function SendEmailWithAttachments(graph: Graph, pathExists: string -> bool, sender: string,
                                    to: seq<string>, subject: string, contentType: string, content: string,
                                    dfs: Option<seq<Option<Table>>>, names: Option<seq<string>>,
                                    paths: Option<seq<string>>, format: string): (d: Dispatch)
    ensures var p := PackageAttachments(dfs, names, paths, format, pathExists);
      d.outcome.Raised? <==> p.Failure?
    ensures var p := PackageAttachments(dfs, names, paths, format, pathExists);
      d.outcome.Raised? ==> d.requests == [] && d.outcome.error == p.error
    ensures var p := PackageAttachments(dfs, names, paths, format, pathExists);
      SendRequestCount(d.requests) == (if p.Success? && SenderInGroup(graph, sender) then 1 else 0)
    ensures GateRespected(graph, sender, d.requests)
    ensures var p := PackageAttachments(dfs, names, paths, format, pathExists);
      forall r :: r in d.requests && r.SendMail? ==>
        && p.Success?
        && r.sender == sender
        && r.message.subject == subject && r.message.body == ItemBody(contentType, content)
        && Addresses(r.message.toRecipients) == to
        && r.message.attachments == (if |p.value| > 0 then Some(p.value) else None)
    ensures var p := PackageAttachments(dfs, names, paths, format, pathExists);
      d.outcome.NotInGroup? <==> p.Success? && !SenderInGroup(graph, sender)
    ensures var p := PackageAttachments(dfs, names, paths, format, pathExists);
      d.outcome == Sent <==>
        && p.Success? && SenderInGroup(graph, sender)
        && graph.sendMail(sender, ComposeMessage(subject, contentType, content, to, p.value)) == StatusAccepted
    ensures var p := PackageAttachments(dfs, names, paths, format, pathExists);
      d.outcome.SendFailed? ==>
        && p.Success?
        && d.outcome.status == graph.sendMail(sender, ComposeMessage(subject, contentType, content, to, p.value))
        && d.outcome.status != StatusAccepted
  {
    match PackageAttachments(dfs, names, paths, format, pathExists)
    case Failure(e) => Dispatch([], Raised(e))
    case Success(atts) => DispatchMessage(graph, sender, ComposeMessage(subject, contentType, content, to, atts))
  }

  /** With no attachment sources, the two send functions make the same requests and end alike. */
  lemma WithoutSourcesSendsPlainMessage(graph: Graph, pathExists: string -> bool, sender: string,
                                        to: seq<string>, subject: string, contentType: string, content: string,
                                        format: string)
    ensures SendEmailWithAttachments(graph, pathExists, sender, to, subject, contentType, content,
                                     None, None, None, format)
         == SendEmailNoAttachment(graph, sender, to, subject, contentType, content)
  {
  }

  /** When the service refuses membership checks that carry a missing id, a failed
      user or group lookup means no mail is sent. */
  lemma FailedLookupBlocksSend(graph: Graph, sender: string, message: Message)
    requires forall g: Option<string>, u: Option<string> :: g.None? || u.None? ==> !IsMemberFromStatus(graph.membership(g, u))
    requires GroupIdFromResponse(graph.groups(AuthorizationGroup)).None?
          || UserIdFromResponse(graph.users(sender)).None?
    ensures SendRequestCount(DispatchMessage(graph, sender, message).requests) == 0
    ensures DispatchMessage(graph, sender, message).outcome == NotInGroup
  {
  }
}
