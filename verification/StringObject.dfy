/** RedisStringObject: the codec only (include/redis_string_object.h:71-145 and 300-373). */
module StringObject {
  import opened Bytes
  import opened ObjectCodec

  function StringBytes(ttl: Ttl, s: Str): Str { Header(STRING, ttl) + Sized(s) }

  class RedisStringObject {
    var str: Str

    constructor (s: Str)
      ensures str == s
    {
      str := s;
    }

    method Serialize(ttl: Ttl) returns (out: Str)
      ensures out == StringBytes(ttl, str) && |out| == 5 + |str| + ttl.Size()
    {
      out := Header(STRING, ttl);
      out := out + LE(4, |str|);
      out := out + str;
    }

    method Deserialize(buf: Str, offset0: nat, timed: bool, ghost ttl0: Ttl, ghost s: Str)
      returns (ttl: Ttl, offset: nat)
      requires |s| < 0x1_0000_0000 && ttl0.Valid() && timed == ttl0.Until?
      requires Holds(buf, offset0, StringBytes(ttl0, s))
      modifies this
      ensures str == s && ttl == ttl0 && offset == offset0 + |StringBytes(ttl0, s)|
    {
      HoldsParts(buf, offset0, Header(STRING, ttl0), Sized(s));
      ttl, offset := ReadHeader(buf, offset0, timed, STRING, ttl0);
      str, offset := ReadSized(buf, offset, s);
    }
  }
}
