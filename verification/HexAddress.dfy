/**
 * The parser for hexadecimal socket addresses, `sockaddr` in service/server/helper_route_mac.c:
 * a state machine over digits, delimiters and the end of the text, writing into a buffer.
 */
module HexAddress {
  import opened Buffers

  datatype Digits = Virgin | GotOne | GotTwo

  predicate IsDigit(c: char) { '0' <= c <= '9' || 'a' <= c <= 'f' || 'A' <= c <= 'F' }

  function Value(c: char): (v: nat)
    requires IsDigit(c)
    ensures v < 16
  {
    if '0' <= c <= '9' then c as int - '0' as int
    else if 'a' <= c <= 'f' then c as int - 'a' as int + 10
    else c as int - 'A' as int + 10
  }

  /** The bytes stored so far, and the byte in progress with its number of digits. */
  datatype Machine = Machine(stored: seq<Byte>, state: Digits, byte: nat)

  predicate Sound(m: Machine) { m.byte < if m.state.GotOne? then 0x10 else 0x100 }

  const START := Machine([], Virgin, 0)

  function Stored(m: Machine): seq<Byte>
    requires Sound(m)
  {
    m.stored + [m.byte]
  }

  /** One character; once `limit` bytes are stored the loop has ended and nothing changes. */
  function Step(m: Machine, c: char, limit: nat): (r: Machine)
    requires Sound(m)
    ensures Sound(r)
  {
    if |m.stored| >= limit then m
    else if !IsDigit(c) then Machine(Stored(m), Virgin, 0)
    else match m.state
      case Virgin => Machine(m.stored, GotOne, Value(c))
      case GotOne => Machine(m.stored, GotTwo, Value(c) + 16 * m.byte)
      case GotTwo => Machine(Stored(m), GotOne, Value(c))
  }

  function Feed(m: Machine, text: string, limit: nat): (r: Machine)
    requires Sound(m)
    ensures Sound(r)
  {
    if text == "" then m else Step(Feed(m, text[..|text| - 1], limit), text[|text| - 1], limit)
  }

  /** The end of the text stores the byte in progress, if there is one. */
  function Finish(m: Machine, limit: nat): seq<Byte>
    requires Sound(m)
  {
    if |m.stored| >= limit || m.state.Virgin? then m.stored else Stored(m)
  }

  function Parse(text: string, limit: nat): seq<Byte> { Finish(Feed(START, text, limit), limit) }

  lemma {:induction false} FeedConcat(m: Machine, a: string, b: string, limit: nat)
    requires Sound(m)
    ensures Feed(m, a + b, limit) == Feed(Feed(m, a, limit), b, limit)
    decreases b
  {
    if b == "" {
      assert a + b == a;
    } else {
      FeedConcat(m, a, b[..|b| - 1], limit);
      assert (a + b)[..|a + b| - 1] == a + b[..|b| - 1];
    }
  }

  lemma {:induction false} FullStays(m: Machine, text: string, limit: nat)
    requires Sound(m) && |m.stored| >= limit
    ensures Feed(m, text, limit) == m
  {
    if text != "" { FullStays(m, text[..|text| - 1], limit); }
  }

  /** The buffer from offset one on holds these bytes, then zeros. */
  ghost predicate Holds(sa: array<Byte>, bytes: seq<Byte>)
    reads sa
  {
    && 1 + |bytes| <= sa.Length
    && (forall j :: 0 <= j < |bytes| ==> sa[1 + j] == bytes[j])
    && (forall j :: 1 + |bytes| <= j < sa.Length ==> sa[j] == 0)
  }

  method Put(sa: array<Byte>, cp: nat, byte: Byte, ghost stored: seq<Byte>)
    requires Holds(sa, stored) && cp == 1 + |stored| < sa.Length
    modifies sa
    ensures Holds(sa, stored + [byte])
  {
    sa[cp] := byte;
  }

  lemma FeedNext(m: Machine, text: string, k: nat, limit: nat)
    requires Sound(m) && k < |text|
    ensures Feed(m, text[..k + 1], limit) == Step(Feed(m, text[..k], limit), text[k], limit)
  {
    assert text[..k + 1][..k] == text[..k];
  }

  /**
   * The loop. With at least one byte of room behind the length byte, nothing is written past
   * the limit; the bytes are stored from offset one, the rest is zero, and the length byte
   * counts itself.
   */
  method SockaddrFromText(text: string, sa: array<Byte>) returns (len: nat)
    requires 2 <= sa.Length < 0x100
    modifies sa
    ensures Holds(sa, Parse(text, sa.Length - 1))
    ensures len == 1 + |Parse(text, sa.Length - 1)| && sa[0] == len
  {
    Clear(sa);
    var limit := sa.Length - 1;
    var cp, state, byte, addr := 1, Virgin, 0, 0;
    ghost var m := START;
    while cp < sa.Length
      invariant addr <= |text| && m == Feed(START, text[..addr], limit)
      invariant cp == 1 + |m.stored| && state == m.state && byte == m.byte
      invariant Holds(sa, m.stored)
      decreases |text| - addr
    {
      if addr == |text| {
        assert text[..addr] == text;
        if !state.Virgin? {
          Put(sa, cp, byte, m.stored);
          cp := cp + 1;
        }
        sa[0] := cp;
        return cp;
      }
      var c := text[addr];
      FeedNext(START, text, addr, limit);
      ghost var next := Step(m, c, limit);
      if IsDigit(c) {
        match state {
          case Virgin => state, byte := GotOne, Value(c);
          case GotOne => state, byte := GotTwo, Value(c) + 16 * byte;
          case GotTwo =>
            Put(sa, cp, byte, m.stored);
            cp := cp + 1;
            state, byte := GotOne, Value(c);
        }
      } else {
        Put(sa, cp, byte, m.stored);
        cp := cp + 1;
        state, byte := Virgin, 0;
      }
      m, addr := next, addr + 1;
    }
    FeedConcat(START, text[..addr], text[addr..], limit);
    assert text[..addr] + text[addr..] == text;
    FullStays(m, text[addr..], limit);
    sa[0] := cp;
    return cp;
  }

  // ------------------------------------------------------------ round trip

  function HexDigit(v: nat, upper: bool): (c: char)
    requires v < 16
    ensures IsDigit(c) && Value(c) == v
  {
    if v < 10 then '0' + v as char
    else if upper then 'A' + (v - 10) as char
    else 'a' + (v - 10) as char
  }

  function Pair(b: Byte, upper: bool): string { [HexDigit(b / 16, upper), HexDigit(b % 16, upper)] }

  /** Two digits for every byte; between two bytes nothing or one delimiter, chosen each time. */
  function Render(bytes: seq<Byte>, delims: seq<string>, upper: bool): string
    requires |delims| == |bytes|
  {
    if bytes == [] then "" else
      var n := |bytes| - 1;
      Render(bytes[..n], delims[..n], upper) + (if n == 0 then "" else delims[n]) + Pair(bytes[n], upper)
  }

  predicate Delimiters(delims: seq<string>) {
    forall i :: 0 <= i < |delims| ==> delims[i] == "" || (|delims[i]| == 1 && !IsDigit(delims[i][0]))
  }

  /** The complete byte that is still waiting to be stored. */
  function Held(m: Machine): seq<Byte>
    requires Sound(m)
  {
    if m.state.GotTwo? then [m.byte] else []
  }

  predicate Between(m: Machine) { Sound(m) && !m.state.GotOne? }

  lemma FeedTwo(m: Machine, c: char, d: char, limit: nat)
    requires Sound(m)
    ensures Feed(m, [c, d], limit) == Step(Step(m, c, limit), d, limit)
  {
    assert [c, d][..1] == [c] && [c][..0] == "";
    assert Feed(m, [c], limit) == Step(m, c, limit);
  }

  /** Both digits of a byte, from a state in which the previous byte is complete. */
  lemma TwoDigits(m: Machine, b: Byte, limit: nat, upper: bool)
    requires Between(m) && |m.stored| + |Held(m)| < limit
    ensures Feed(m, Pair(b, upper), limit) == Machine(m.stored + Held(m), GotTwo, b)
  {
    FeedTwo(m, HexDigit(b / 16, upper), HexDigit(b % 16, upper), limit);
    assert m.stored + [] == m.stored;
  }

  /** A delimiter, or none, after a complete byte. */
  lemma Delimited(m: Machine, sep: string, limit: nat)
    requires Sound(m) && m.state.GotTwo? && |m.stored| < limit
    requires sep == "" || (|sep| == 1 && !IsDigit(sep[0]))
    ensures var r := Feed(m, sep, limit); Between(r) && r.stored + Held(r) == m.stored + Held(m)
  {
    if sep != "" {
      assert sep[..0] == "";
      assert Stored(m) + [] == Stored(m);
    }
  }

  /** One more byte behind a text that ends between bytes. */
  lemma AppendByte(text: string, m: Machine, sep: string, b: Byte, limit: nat, upper: bool)
    requires m == Feed(START, text, limit) && Between(m) && |m.stored| + |Held(m)| < limit
    requires sep == "" || (m.state.GotTwo? && |sep| == 1 && !IsDigit(sep[0]))
    ensures Feed(START, text + sep + Pair(b, upper), limit) == Machine(m.stored + Held(m), GotTwo, b)
  {
    FeedConcat(START, text + sep, Pair(b, upper), limit);
    FeedConcat(START, text, sep, limit);
    if sep != "" { Delimited(m, sep, limit); }
    TwoDigits(Feed(m, sep, limit), b, limit, upper);
  }

  lemma {:induction false} FeedRendered(bytes: seq<Byte>, delims: seq<string>, upper: bool, limit: nat)
    requires |delims| == |bytes| <= limit && Delimiters(delims)
    ensures Feed(START, Render(bytes, delims, upper), limit) == Expected(bytes)
  {
    if bytes != [] {
      var n := |bytes| - 1;
      FeedRendered(bytes[..n], delims[..n], upper, limit);
      var m := Expected(bytes[..n]);
      assert m.stored + Held(m) == bytes[..n];
      AppendByte(Render(bytes[..n], delims[..n], upper), m, if n == 0 then "" else delims[n], bytes[n], limit, upper);
    }
  }

  /** After the last digit of the last byte: all bytes but that one are stored. */
  function Expected(bytes: seq<Byte>): (m: Machine)
    ensures Between(m)
  {
    if bytes == [] then START else Machine(bytes[..|bytes| - 1], GotTwo, bytes[|bytes| - 1])
  }

  /**
   * Every byte sequence that fits is read back from its rendering, in either letter case and
   * with any choice of single delimiters between the bytes.
   */
  lemma RenderedIsReadBack(bytes: seq<Byte>, delims: seq<string>, upper: bool, limit: nat)
    requires |delims| == |bytes| <= limit && Delimiters(delims)
    ensures Parse(Render(bytes, delims, upper), limit) == bytes
  {
    FeedRendered(bytes, delims, upper, limit);
    FinishExpected(bytes, limit);
  }

  lemma FinishExpected(bytes: seq<Byte>, limit: nat)
    requires |bytes| <= limit
    ensures Finish(Expected(bytes), limit) == bytes
  {
    if bytes != [] { assert bytes[..|bytes| - 1] + [bytes[|bytes| - 1]] == bytes; }
  }
}
