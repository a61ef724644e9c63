/** Between frames and the ROS side: what a publisher does with the payload of a frame, and a subscriber
    with a message. */
module TopicHandle {
  import opened Bytes
  import opened Outcomes
  import opened SerialStream
  import opened Introspection
  import opened Codec
  import opened Adapter
  import opened Routing
  import opened MessageSerialization
  import opened Frame
  import opened WriteQueue
  import opened AsyncWrite

  /** handle and publish: read the payload into a message object made for this call, and hand the object
      to the ROS side.  An exception of the reading leaves the call; a refusal does not. */
  method Publish(env: Env, n: nat, p: Endpoint, stream: RosStream) returns (threw: bool, read: Outcome<seq<Value>>)
    requires stream.Valid() && stream.data != null
    modifies stream`cur
    ensures Handled(env, n, p, old(stream.Remaining())) == if threw then None else Some(read)
  {
    hide DecodeAll, ObjectValue, RosStream.Remaining, RosStream.Valid;
    ghost var payload := stream.Remaining();
    if p.members == None {
      return env.publishThrows(n, p, Unspecified), Unspecified;
    }
    var d: MessageType := p.members.value;
    var obj := new Cell[d.sizeOf](_ => Raw(0));
    var status := DeserializeRos1ToStruct(stream, obj, 0, d);
    match status {
      case Ok =>
        AllDecoded(d.members, payload);
        ObjectFound(obj[..], 0, d.members, DecodeAll(d.members, payload).value);
        read := Done(ObjectValue(obj[..], 0, d.members), stream.Remaining());
      case Refuses => read := Refused;
      case Throws => return true, Threw;
      case Undefined => read := Unspecified;
    }
    threw := env.publishThrows(n, p, read);
  }

  /** Serial_Subscriber.callback and subscribe: the message object that the ROS side filled is written
      out and handed to the writer, also what was written before a refusal, and nothing at all of a
      message that could not be converted.  An exception of the writing comes before the queue. */
  method Forward(writer: AsyncWriteBuffer, topic: u16, d: MessageType, converted: bool, obj: array<Cell>,
                 ghost vs: seq<Value>)
    returns (threw: bool)
    requires writer.Valid() && d.sizeOf <= obj.Length
    requires converted ==> TypedAll(d.members, vs) && HoldsAll(obj[..], 0, d.members, vs)
    modifies writer
    ensures writer.Valid()
    ensures var out := if converted then EncodeAll(d.members, vs) else NOTHING;
            && (threw <==> out.status.Throws?)
            && (threw ==> writer.State() == old(writer.State()))
            && (out.status.Ok? || out.status.Refuses? ==>
                  writer.State() == Enqueue(old(writer.State()), Encode(topic, Sent(out.bytes))))
            && ((out.status.Ok? || out.status.Refuses?) && |out.bytes| < 65536 ==>
                  writer.State() == Enqueue(old(writer.State()), Encode(topic, out.bytes)))
  {
    hide EncodeAll, TypedAll, HoldsAll, AsyncWriteBuffer.Valid, Encode, Enqueue, WellFormedAll, Fits, Separate;
    var wb := new WriteBuffer(d.sizeOf);
    ghost var out := if converted then EncodeAll(d.members, vs) else NOTHING;
    assert wb.Written() == [] && [] + out.bytes == out.bytes;
    var status := Ok;
    if converted {
      status := SerializedStructToRos1(wb, obj, 0, d, vs);
    }
    if status.Throws? {
      return true;
    }
    assert wb.Written() == out.bytes;
    SentIsPayload(out.bytes);
    writer.WriteToSerial(wb, topic);
    threw := false;
  }
}
