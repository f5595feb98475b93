/** The received packet: a command byte, an owned copy of the payload, and a read cursor. */
module Packet {
  import opened Bytes
  import opened Protocol
  import opened PacketReader

  class MqttPacket {
    var command: Byte
    var remainingLength: nat
    var pos: nat
    var payload: array?<Byte>

    /** The cursor stays inside the payload, and an absent payload has no bytes to read. */
    ghost predicate Valid()
      reads this
    {
      && remainingLength < 0x1_0000
      && remainingLength == (if payload == null then 0 else payload.Length)
      && pos <= remainingLength
    }

    ghost function Contents(): ByteString
      reads this, payload
    {
      if payload == null then [] else payload[..]
    }

    ghost function Unread(): ByteString
      requires Valid()
      reads this, payload
    {
      Contents()[pos..]
    }

    constructor ()
      ensures Valid() && command == 0 && Contents() == [] && pos == 0 && payload == null
    {
      command, remainingLength, pos, payload := 0, 0, 0, null;
    }

    method Reset()
      modifies this
      ensures Valid() && command == 0 && Contents() == [] && pos == 0 && payload == null
    {
      command := 0;
      remainingLength := 0;
      payload := null;
      pos := 0;
    }

    method SetCommand(cmd: Byte) returns (previous: Byte)
      modifies this`command
      ensures command == cmd && previous == old(command)
    {
      previous := command;
      command := cmd;
    }

    /** Copies the payload out of `buf`; the length parameter is 16 bits wide. The cursor is left alone. */
    method SetReceivePayload(buf: array<Byte>, from: nat, length: nat)
      requires from + length <= buf.Length
      modifies this`payload, this`remainingLength
      ensures payload != null && fresh(payload) && remainingLength == payload.Length == length % 0x1_0000
      ensures Contents() == buf[from..from + length % 0x1_0000]
      ensures Valid() <==> pos <= remainingLength
    {
      var n := length % 0x1_0000;
      payload := new Byte[n](i requires 0 <= i < n reads buf => buf[from + i]);
      remainingLength := n;
    }

    /** The body of a PUBLISH: all but the message id, the first two bytes. */
    method GetPayload() returns (msg: ByteString)
      requires Valid() && remainingLength >= 2
      ensures msg == Contents()[2..]
    {
      msg := payload[2..2 + (remainingLength - 2)];
    }

    method GetJsonMsg() returns (msg: ByteString)
      requires Valid() && payload != null
      ensures msg == Unread()
    {
      msg := payload[pos..pos + (remainingLength - pos)];
    }

    /** On failure the caller's string keeps its value, but a length field that was read stays read. */
    method ReadString(str: ByteString) returns (rc: int, result: ByteString)
      requires Valid()
      modifies this`pos
      ensures Valid() && Unread() == Read(old(Unread()), String).rest
      ensures match Read(old(Unread()), String).item
              case Some(i) => rc == MQTT_ERR_SUCCESS && i.Str? && i.t == result
              case None => rc == MQTT_ERR_PROTOCOL && result == str
      ensures var u, n := old(Unread()), |result|;
              rc == MQTT_ERR_SUCCESS ==>
                |u| >= 2 + n && u[0] == n / 0x100 && u[1] == n % 0x100 && result == u[2..2 + n]
      ensures rc != MQTT_ERR_SUCCESS ==>
                Unread() == if |old(Unread())| < 2 then old(Unread()) else old(Unread())[2..]
    {
      result := str;
      ghost var u := Unread();
      var len: Word;
      rc, len := ReadUint16(0);
      if rc != MQTT_ERR_SUCCESS {
        return;
      }
      if pos + len > remainingLength {
        rc := MQTT_ERR_PROTOCOL;
        return;
      }
      result := payload[pos..pos + len];
      assert result == u[2..2 + len];
      pos := pos + len;
      assert Unread() == u[2 + len..];
    }

    method ReadUint16(word: Word) returns (rc: int, result: Word)
      requires Valid()
      modifies this`pos
      ensures Valid() && Unread() == Read(old(Unread()), Uint16).rest
      ensures match Read(old(Unread()), Uint16).item
              case Some(i) => rc == MQTT_ERR_SUCCESS && i == U16(result)
              case None => rc == MQTT_ERR_PROTOCOL && result == word
      ensures var u := old(Unread());
              rc == MQTT_ERR_SUCCESS ==> |u| >= 2 && u[0] == result / 0x100 && u[1] == result % 0x100
    {
      result := word;
      if pos + 2 > remainingLength {
        rc := MQTT_ERR_PROTOCOL;
        return;
      }
      var msb := payload[pos];
      pos := pos + 1;
      var lsb := payload[pos];
      pos := pos + 1;
      result := WordOf(msb, lsb);
      rc := MQTT_ERR_SUCCESS;
    }

    method ReadUint8(num: Byte) returns (rc: int, result: Byte)
      requires Valid()
      modifies this`pos
      ensures Valid() && Unread() == Read(old(Unread()), Uint8).rest
      ensures match Read(old(Unread()), Uint8).item
              case Some(i) => rc == MQTT_ERR_SUCCESS && i == U8(result)
              case None => rc == MQTT_ERR_PROTOCOL && result == num
    {
      result := num;
      if pos + 1 > remainingLength {
        rc := MQTT_ERR_PROTOCOL;
        return;
      }
      result := payload[pos];
      pos := pos + 1;
      rc := MQTT_ERR_SUCCESS;
    }
  }
}
