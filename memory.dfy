/** The circular tape (`src/memory.rs`): a fixed number of byte cells and a
    cursor, with wrapping cursor moves and wrapping cell arithmetic. */
module Memory {
  import opened Prelude

  /** `offset_index` for a cursor at `index` on a tape of `len` cells: a
      non-negative offset wraps with `%`, a negative one steps back and, when
      it passes cell 0, continues from the end. The unsigned subtraction on
      the wrapping path would underflow if `-offset` exceeded
      `index + len`, so that case is excluded. */
  function Wrap(index: nat, len: nat, offset: int): (r: nat)
    requires index < len
    requires offset >= 0 || -offset <= index + len
    ensures r < len
    ensures r == (index + offset) % len
  {
    if offset >= 0 then (index + offset) % len else WrapNegative(index, len, -offset)
  }

  /** The negative-offset branch of `offset_index`, given `-offset`. */
  function WrapNegative(index: nat, len: nat, negativeOffset: nat): (r: nat)
    requires index < len && negativeOffset <= index + len
    ensures r < len
    ensures r == (index - negativeOffset) % len
  {
    if negativeOffset > index then
      WrapBack(index, len, negativeOffset);
      len - (negativeOffset - index)
    else
      ModUnique(index - negativeOffset, len, 0, index - negativeOffset);
      index - negativeOffset
  }

  lemma WrapBack(index: nat, len: nat, negativeOffset: nat)
    requires index < negativeOffset <= index + len
    ensures (len - (negativeOffset - index)) % len == (index - negativeOffset) % len
  {
    var r := len - (negativeOffset - index);
    ModUnique(r, len, 0, r);
    ModUnique(index - negativeOffset, len, -1, r);
  }

  /** Moving by `len + k` lands where moving by `k` does. */
  lemma WrapFullTurn(index: nat, len: nat, k: nat)
    requires index < len
    ensures Wrap(index, len, len + k) == Wrap(index, len, k)
  {
    var x := index + k;
    assert x == len * (x / len) + x % len;
    ModUnique(x + len, len, x / len + 1, x % len);
  }

  /** The cell value `as char` gives: the character with that code. */
  function ByteChar(b: u8): (c: char)
    ensures c as int == b as int
  {
    (b as int) as char
  }

  /** `c as u8`: the low eight bits of the character's code. */
  function CharByte(c: char): (b: u8)
    ensures b as int == c as int % 256
  {
    (c as int % 256) as u8
  }

  /** Storing a cell's character and reading it back is the identity. */
  lemma CharByteOfByteChar(b: u8)
    ensures CharByte(ByteChar(b)) == b
  {
  }

  class Memory {
    const data: array<u8>
    var index: nat

    /** `Memory::new`: `size` zero cells (possibly none), cursor at 0. */
    constructor(size: nat)
      ensures fresh(data) && data.Length == size && index == 0
      ensures forall i :: 0 <= i < size ==> data[i] == 0
    {
      data := new u8[size](_ => 0);
      index := 0;
    }

    /** `offset_index` */
    function OffsetIndex(offset: int): (r: nat)
      reads this
      requires index < data.Length
      requires offset >= 0 || -offset <= index + data.Length
      ensures r < data.Length
      ensures r == (index + offset) % data.Length
    {
      Wrap(index, data.Length, offset)
    }

    /** `move_index`: only the cursor changes. */
    method MoveIndex(offset: int)
      requires index < data.Length
      requires offset >= 0 || -offset <= index + data.Length
      modifies this
      ensures index < data.Length
      ensures index == old(OffsetIndex(offset))
    {
      index := OffsetIndex(offset);
    }

    /** `>` in the interpreter: `move_index(1)`. */
    method Next()
      requires index < data.Length
      modifies this
      ensures index < data.Length
      ensures index == (old(index) + 1) % data.Length
    {
      MoveIndex(1);
    }

    /** `<` in the interpreter: `move_index(-1)`. */
    method Previous()
      requires index < data.Length
      modifies this
      ensures index < data.Length
      ensures index == (old(index) - 1) % data.Length
    {
      MoveIndex(-1);
    }

    /** `add`: the current cell gains `n` modulo 256; nothing else changes. */
    method Add(n: u8)
      requires index < data.Length
      modifies data
      ensures data[..] == old(data[..])[index := WrappingAdd(old(data[index]), n)]
    {
      data[index] := WrappingAdd(data[index], n);
    }

    /** `+` in the interpreter: `add(1)`. */
    method Increment()
      requires index < data.Length
      modifies data
      ensures data[..] == old(data[..])[index := WrappingAdd(old(data[index]), 1)]
    {
      Add(1);
    }

    /** `-` in the interpreter: `add(255)`, one less modulo 256. */
    method Decrement()
      requires index < data.Length
      modifies data
      ensures data[..] == old(data[..])[index := WrappingSub(old(data[index]), 1)]
    {
      Add(255);
    }

    /** `add_with_offset`: only the cell `offset` away from the cursor
        changes; the cursor stays. */
    method AddWithOffset(n: u8, offset: int)
      requires index < data.Length
      requires offset >= 0 || -offset <= index + data.Length
      modifies data
      ensures data[..] == old(data[..])[old(OffsetIndex(offset)) := WrappingAdd(old(data[OffsetIndex(offset)]), n)]
    {
      var target := OffsetIndex(offset);
      data[target] := WrappingAdd(data[target], n);
    }

    /** `zero`: clears the current cell and nothing else. */
    method Zero()
      requires index < data.Length
      modifies data
      ensures data[..] == old(data[..])[index := 0]
      ensures IsZero()
    {
      data[index] := 0;
    }

    /** `is_zero` */
    function IsZero(): (r: bool)
      reads this, data
      requires index < data.Length
      ensures r <==> data[index] as int == 0
    {
      data[index] == 0
    }

    /** `get_char`: the character whose code is the current cell. */
    function GetChar(): (c: char)
      reads this, data
      requires index < data.Length
      ensures c as int == data[index] as int
    {
      ByteChar(data[index])
    }

    /** `set_char`: stores the character's code truncated to a byte, so
        reading it back gives the code modulo 256. */
    method SetChar(c: char)
      requires index < data.Length
      modifies data
      ensures data[..] == old(data[..])[index := CharByte(c)]
      ensures GetChar() as int == c as int % 256
    {
      data[index] := CharByte(c);
    }
  }
}
