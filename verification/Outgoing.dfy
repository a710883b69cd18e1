/** What the subscribing calls do with the write buffer: a request is serialised into it and sent from
    there.  This is where the outcomes come from that `SubClient` takes as arguments. */
module Outgoing {
  import opened MqttLength
  import opened MqttCodec
  import opened MqttRequests
  import opened Optional
  import opened SendPath
  import SubClient
  import MqttServer

  const MAX_SIZE_OF_CLOUD_TOPIC := 128

  /** The packet of a request for one filter. */
  function RequestBytes(subscribe: bool, id: uint16, filter: seq<byte>, qos: byte): (packet: seq<byte>)
    ensures |packet| == 1 + |Encode(|OneFilter(subscribe, id, filter, qos)|)| + |OneFilter(subscribe, id, filter, qos)|
  {
    Fixed(RequestHeader(subscribe, 0), OneFilter(subscribe, id, filter, qos))
  }

  function OneFilter(subscribe: bool, id: uint16, filter: seq<byte>, qos: byte): seq<byte> {
    RequestBody(id, MqttRequests.Sent(filter, [qos], 1, subscribe))
  }

  lemma OneFilterLen(subscribe: bool, id: uint16, filter: seq<byte>, qos: byte)
    ensures |OneFilter(subscribe, id, filter, qos)| == 4 + |filter| + if subscribe then 1 else 0
    ensures MqttRequests.Sent(filter, [qos], 1, subscribe) == [Entry(filter, if subscribe then Some(qos) else None)]
  {
    hide Utf8;
    SentStep(filter, [qos], 0, subscribe);
    assert filter[0..] == filter;
  }

  /** Serialises and sends.  The wire gets the packet if and only if it is shorter than the buffer and
      the writes come to its length; one that fills the buffer is serialised and then refused. */
  method Dispatch(buf: array<byte>, bufLen: nat, subscribe: bool, id: uint16, filter: seq<byte>, qos: byte,
                  plan: seq<Write>, wire: seq<byte>)
    returns (sending: SubClient.Sending, wire': seq<byte>)
    requires |filter| <= MAX_SIZE_OF_CLOUD_TOPIC && bufLen < TWO_32 && 2 * bufLen <= buf.Length
    modifies buf
    ensures var packet := RequestBytes(subscribe, id, filter, qos);
            && (sending == SubClient.TooLong <==> PacketLen(|OneFilter(subscribe, id, filter, qos)|) > bufLen)
            && (sending == SubClient.NotSent(ERR_MQTT_BUFFER_TOO_SHORT) <==> |packet| == bufLen && !sending.TooLong?)
            && (sending == SubClient.Sent <==> |packet| < bufLen && Hits(plan, |packet|))
            && (sending == SubClient.Sent ==> wire' == wire + packet)
  {
    hide PacketLen, Size, Encode, RequestHeader, RequestBody, MqttRequests.Sent, Hits, Holds, Taken;
    ghost var n, packet := |OneFilter(subscribe, id, filter, qos)|, RequestBytes(subscribe, id, filter, qos);
    OneFilterLen(subscribe, id, filter, qos);
    SizeOf(n);
    wire' := wire;
    var ret, len := SerializeRequest(buf, bufLen, subscribe, 0, id, 1, filter, [qos]);
    if ret != SUCCESS_RET {
      return SubClient.TooLong, wire';
    }
    AtFront(buf[..], old(buf[..]), packet);
    ret, wire' := SendPacket(buf, bufLen, len, plan, wire);
    sending := if ret == SUCCESS_RET then SubClient.Sent else SubClient.NotSent(ret);
  }

  lemma AtFront(now: seq<byte>, was: seq<byte>, packet: seq<byte>)
    requires Holds(now, was, 0, packet)
    ensures |packet| <= |now| && now[..|packet|] == packet
  {
  }

  /** So there is a way to send the packet if and only if it is shorter than the buffer. */
  lemma CanBeSentExactly(subscribe: bool, id: uint16, filter: seq<byte>, qos: byte, bufLen: nat)
    ensures var length := |RequestBytes(subscribe, id, filter, qos)|;
            (exists plan :: length < bufLen && Hits(plan, length)) <==> length < bufLen
  {
    var length := |RequestBytes(subscribe, id, filter, qos)|;
    Hit([Takes(length)], length, 1);
  }

  /** And the server reads from it what was asked for. */
  lemma RequestArrives(subscribe: bool, id: uint16, filter: seq<byte>, qos: byte)
    requires |filter| <= MAX_SIZE_OF_CLOUD_TOPIC
    ensures MqttServer.Receive(RequestBytes(subscribe, id, filter, qos))
            == if subscribe then MqttServer.SubscribePacket(id, [Entry(filter, Some(qos))])
               else MqttServer.UnsubscribePacket(id, [Entry(filter, None)])
  {
    OneFilterLen(subscribe, id, filter, qos);
    MqttServer.RequestReceivedExactly(subscribe, 0, id, MqttRequests.Sent(filter, [qos], 1, subscribe));
  }
}
