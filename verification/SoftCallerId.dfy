/**
 accept_message of src/client.c: whether a client takes a message from another. A soft caller id is
 meant to let members of a common channel in, but the test compares the channel of each of the
 source's memberships with a membership of the target.
 */
module SoftCallerId {

  class Channel { }

  class Membership {
    const chptr: Channel

    constructor (chptr: Channel)
      ensures this.chptr == chptr
    {
      this.chptr := chptr;
    }
  }

  class Client {
    const isClient: bool
    var soft: bool
    var allowList: seq<Client>
    var channels: seq<Membership>

    constructor (isClient: bool)
      ensures this.isClient == isClient && !soft && allowList == [] && channels == []
    {
      this.isClient := isClient;
      soft, allowList, channels := false, [], [];
    }

    // find_channel_link for this client. C takes any pointer for the channel, and so does this.
    method FindChannelLink(chptr: object) returns (link: Membership?)
      ensures link == null <==> !isClient || forall m :: m in channels ==> m.chptr != chptr
      ensures link != null ==> link in channels && link.chptr == chptr
    {
      if !isClient {
        return null;
      }
      for i := 0 to |channels|
        invariant forall m :: m in channels[..i] ==> m.chptr != chptr
      {
        if channels[i].chptr == chptr {
          return channels[i];
        }
      }
      return null;
    }

    // accept_message for this client as the target. No channel is a membership, so the soft test lets
    // nobody in.
    method AcceptMessage(source: Client) returns (accepted: bool)
      ensures accepted <==> source in allowList
    {
      for i := 0 to |allowList|
        invariant source !in allowList[..i]
      {
        if source == allowList[i] {
          return true;
        }
      }
      if soft {
        for i := 0 to |channels| {
          var link := source.FindChannelLink(channels[i]);
          if link != null {
            return true;
          }
        }
      }
      return false;
    }
  }
}
