/** The file object both decoders read through (`self._buf` in mdfs.py, `f`
    in read_mdfs.py), taken to be an `io.BytesIO` over the bytes of the
    file: a position over a fixed byte string, advanced by
    `read(n)` and by the relative `seek(n, 1)`. The functions below state
    what a read at a position yields; the class performs the reads. */
module ByteCursor {
  import opened Common
  import opened LittleEndian

  /** `read(n)` at `pos` when the caller needs exactly n bytes (every use in
      the decoders feeds the bytes to `struct.unpack`, which fails on a short
      read). A negative n reads to the end of the file, as `read` does on an
      in-memory `io.BytesIO`. */
  function Take(buf: seq<Byte>, pos: nat, n: int): (r: Result<Step<seq<Byte>>>)
    ensures n >= 0 ==> (r.Ok? <==> pos + n <= |buf|)
    ensures r.Ok? && n >= 0 ==> r.value.item == buf[pos..pos + n] && r.value.next == pos + n
    ensures n < 0 ==> r.Ok? && r.value.item == (if pos <= |buf| then buf[pos..] else [])
    ensures r.Ok? && n < 0 ==> r.value.next == if pos <= |buf| then |buf| else pos
    ensures r.Err? ==> r.error == Truncated
  {
    if n < 0 then
      if pos <= |buf| then Ok(Step(buf[pos..], |buf|)) else Ok(Step([], pos))
    else if pos + n <= |buf| then Ok(Step(buf[pos..pos + n], pos + n))
    else Err(Truncated)
  }

  /** A signed little-endian integer of `width` bytes ('h', 'i', 'q'). */
  function IntAt(buf: seq<Byte>, pos: nat, width: nat): (r: Result<Step<int>>)
    requires width > 0
    ensures r.Ok? <==> pos + width <= |buf|
    ensures r.Ok? ==> r.value == Step(SIntLE(buf[pos..pos + width]), pos + width)
  {
    var s :- Take(buf, pos, width);
    Ok(Step(SIntLE(s.item), s.next))
  }

  /** The bytes of a text field with every NUL removed: `.replace('\x00', '')`
      removes all of them, not only the trailing padding. */
  function StripNul(s: seq<Byte>): (r: seq<Byte>)
    ensures 0 !in r
    ensures |r| <= |s|
  {
    if |s| == 0 then []
    else if s[0] == 0 then StripNul(s[1..])
    else [s[0]] + StripNul(s[1..])
  }

  /** Stripping keeps every non-NUL byte with its multiplicity. */
  lemma {:induction false} StripNulKeeps(s: seq<Byte>)
    ensures forall b: Byte :: b != 0 ==> multiset(StripNul(s))[b] == multiset(s)[b]
    ensures 0 !in s ==> StripNul(s) == s
  {
    if |s| > 0 {
      StripNulKeeps(s[1..]);
      assert s == [s[0]] + s[1..];
    }
  }

  /** Stripping keeps the order of the bytes: it works piece by piece, and a
      single byte is dropped exactly when it is NUL. */
  lemma {:induction false} StripNulAppend(a: seq<Byte>, b: seq<Byte>)
    ensures StripNul(a + b) == StripNul(a) + StripNul(b)
    ensures |a| == 1 ==> StripNul(a) == if a[0] == 0 then [] else a
    decreases |a|
  {
    if |a| > 0 {
      StripNulAppend(a[1..], b);
      var ab := a + b;
      assert ab[0] == a[0] && ab[1..] == a[1..] + b;
      if a[0] == 0 {
        assert StripNul(ab) == StripNul(a[1..] + b);
      } else {
        assert StripNul(ab) == [a[0]] + StripNul(a[1..] + b);
        assert [a[0]] + (StripNul(a[1..]) + StripNul(b)) == [a[0]] + StripNul(a[1..]) + StripNul(b);
      }
    } else {
      assert a + b == b;
    }
  }

  /** A fixed-width text field of the header. */
  function TextAt(buf: seq<Byte>, pos: nat, width: nat): (r: Result<Step<seq<Byte>>>)
    ensures r.Ok? <==> pos + width <= |buf|
    ensures r.Ok? ==> r.value == Step(StripNul(buf[pos..pos + width]), pos + width)
  {
    var s :- Take(buf, pos, width);
    Ok(Step(StripNul(s.item), s.next))
  }

  /** The ASCII text `mdfs`. */
  const Magic: seq<Byte> := [0x6d, 0x64, 0x66, 0x73]

  /** `MDFSFile.__init__`: the first four bytes must read as `mdfs`; a short
      read, or any other bytes (whether or not they are valid UTF-8), is a
      ValueError. */
  function MagicAt(buf: seq<Byte>): (r: Result<Step<()>>)
    ensures r.Ok? <==> |buf| >= 4 && buf[..4] == Magic
    ensures r.Ok? ==> r.value.next == 4
    ensures r.Err? ==> r.error == BadMagic
  {
    match Take(buf, 0, 4)
    case Ok(s) => if s.item == Magic then Ok(Step((), s.next)) else Err(BadMagic)
    case Err(_) => Err(BadMagic)
  }

  class Cursor {
    const buf: seq<Byte>
    var pos: nat

    constructor (data: seq<Byte>)
      ensures buf == data && pos == 0
    {
      buf := data;
      pos := 0;
    }

    /** Where a failed read leaves the file: at its end (or where it was,
        if it had been seeked past the end). */
    function EndPos(): nat
      reads this
    {
      if pos <= |buf| then |buf| else pos
    }

    method Read(n: int) returns (r: Result<seq<Byte>>)
      modifies this
      ensures r == ItemOf(Take(buf, old(pos), n))
      ensures pos == if r.Ok? then Take(buf, old(pos), n).value.next else old(EndPos())
    {
      if n < 0 {
        if pos <= |buf| {
          r := Ok(buf[pos..]);
          pos := |buf|;
        } else {
          r := Ok([]);
        }
      } else if pos + n <= |buf| {
        r := Ok(buf[pos..pos + n]);
        pos := pos + n;
      } else {
        r := Err(Truncated);
        pos := EndPos();
      }
    }

    method ReadInt(width: nat) returns (r: Result<int>)
      requires width > 0
      modifies this
      ensures r == ItemOf(IntAt(buf, old(pos), width))
      ensures pos == if r.Ok? then old(pos) + width else old(EndPos())
    {
      var s :- Read(width);
      r := Ok(SIntLE(s));
    }

    method ReadText(width: nat) returns (r: Result<seq<Byte>>)
      modifies this
      ensures r == ItemOf(TextAt(buf, old(pos), width))
      ensures pos == if r.Ok? then old(pos) + width else old(EndPos())
    {
      var s :- Read(width);
      r := Ok(StripNul(s));
    }

    /** `seek(n, 1)`: a relative forward seek, which never fails, even past
        the end. */
    method Skip(n: nat)
      modifies this
      ensures pos == old(pos) + n
    {
      pos := pos + n;
    }

    /** The magic check of `MDFSFile.__init__`, on a freshly opened file. */
    method CheckMagic() returns (r: Result<()>)
      requires pos == 0
      modifies this
      ensures r == ItemOf(MagicAt(buf))
      ensures r.Ok? ==> pos == 4
    {
      var s := Read(4);
      if s.Err? || s.value != Magic {
        return Err(BadMagic);
      }
      r := Ok(());
    }
  }
}
