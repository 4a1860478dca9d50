/** The decisions POST /private-messages and POST /private-messages/upload-image make before they
    insert a message. Both routes refuse a message when a block exists in either direction. */
module PrivateMessages {
  import opened Tables
  import opened Blocks

  /** Why a send is refused. */
  datatype Refusal =
    | MissingField           // a NaN id or falsy content (text route), NaN ids (image route)
    | NoFile                 // the image route received no file
    | SenderBlockedReceiver  // first check of the text route
    | ReceiverBlockedSender  // second check of the text route
    | EitherBlocked          // the single check of the image route

  datatype SendDecision = Refuse(why: Refusal) | Accept(senderId: int, receiverId: int)
  {
    function Status(): Status
    {
      match this
      case Accept(_, _) => Created
      case Refuse(why) => if why.MissingField? || why.NoFile? then BadRequest else Forbidden
    }
  }

  /** The request supplies what the text route needs: numeric ids and non-empty content. */
  predicate TextRequestValid(sender: Option<int>, receiver: Option<int>, content: Option<string>)
  {
    sender.Some? && receiver.Some? && content.Some? && content.value != ""
  }

  /** POST /private-messages: 400 on a NaN id or falsy content, 403 when the sender blocked the
      receiver (checked first), 403 when the receiver blocked the sender, otherwise accepted. */
  function TextSend(blocks: seq<BlockRow>, sender: Option<int>, receiver: Option<int>, content: Option<string>): (d: SendDecision)
    ensures d.Status() == BadRequest <==> !TextRequestValid(sender, receiver, content)
    ensures d.Accept? <==>
      TextRequestValid(sender, receiver, content)
      && !HasBlocked(blocks, sender.value, receiver.value) && !HasBlocked(blocks, receiver.value, sender.value)
    ensures d.Accept? ==> d == Accept(sender.value, receiver.value)
    ensures d == Refuse(SenderBlockedReceiver) <==>
      TextRequestValid(sender, receiver, content) && HasBlocked(blocks, sender.value, receiver.value)
    ensures d == Refuse(ReceiverBlockedSender) ==> HasBlocked(blocks, receiver.value, sender.value)
  {
    if !TextRequestValid(sender, receiver, content) then Refuse(MissingField)
    else if HasBlocked(blocks, sender.value, receiver.value) then Refuse(SenderBlockedReceiver)
    else if HasBlocked(blocks, receiver.value, sender.value) then Refuse(ReceiverBlockedSender)
    else Accept(sender.value, receiver.value)
  }

  /** POST /private-messages/upload-image: 400 without a file (checked before the ids), 400 on a
      NaN id, 403 when a block exists in either direction, otherwise accepted. */
  function ImageSend(blocks: seq<BlockRow>, hasFile: bool, sender: Option<int>, receiver: Option<int>): (d: SendDecision)
    ensures !hasFile ==> d == Refuse(NoFile)
    ensures d.Status() == BadRequest <==> !hasFile || sender.None? || receiver.None?
    ensures d.Accept? <==>
      hasFile && sender.Some? && receiver.Some? && !BlockedEitherWay(blocks, sender.value, receiver.value)
    ensures d.Accept? ==> d == Accept(sender.value, receiver.value)
  {
    if !hasFile then Refuse(NoFile)
    else if sender.None? || receiver.None? then Refuse(MissingField)
    else if BlockedEitherWay(blocks, sender.value, receiver.value) then Refuse(EitherBlocked)
    else Accept(sender.value, receiver.value)
  }

  /** The two routes apply the same block rule: given a file and non-empty content, they answer
      every pair of ids with the same status. */
  lemma TextAndImageAgree(blocks: seq<BlockRow>, sender: Option<int>, receiver: Option<int>, content: string)
    requires content != ""
    ensures TextSend(blocks, sender, receiver, Some(content)).Status() == ImageSend(blocks, true, sender, receiver).Status()
  {
    if sender.Some? && receiver.Some? {
      EitherWayIsBothChecks(blocks, sender.value, receiver.value);
    }
  }

  /** A send is refused for a block exactly when the flags GET /profile/:userId shows the sender
      on the receiver's profile are not both false. The sender id must be non-zero, because the
      profile route treats 0 as no current user. */
  lemma FlagsPredictRefusal(blocks: seq<BlockRow>, sender: int, receiver: int, content: string)
    requires sender != 0 && content != ""
    ensures var f := ProfileBlockFlags(blocks, Some(sender), receiver);
      (TextSend(blocks, Some(sender), Some(receiver), Some(content)).Status() == Forbidden
       <==> f.isBlockedByCurrentUser || f.hasBlockedCurrentUser)
  {
  }
}
