/** `sb_t`, the growable buffer of the C service. Sizes are those of a 64-bit machine. */
module StringBuffer {
  import opened CStrings
  import opened Decimal
  import opened JsonText

  const SIZE_MAX: int := 0xffff_ffff_ffff_ffff
  /** No allocation above this is ever granted. */
  const MAX_ALLOCATION: int := 0x4000_0000_0000_0000
  /** No text in memory is longer than this. */
  const MAX_TEXT: int := 0x0800_0000_0000_0000

  /** 256 doubled any number of times. */
  predicate Doubled(cap: nat) {
    cap == 256 || (cap > 256 && cap % 2 == 0 && Doubled(cap / 2))
  }

  /** The doubling that `sb_reserve` does. */
  function DoubledUntil(cap: nat, need: nat): (c: nat)
    requires cap > 0
    ensures c >= cap && c >= need && (c == cap || c < 2 * need)
    decreases need - cap
  {
    if cap >= need then cap else DoubledUntil(cap * 2, need)
  }

  /** The capacity after room for `need` bytes has been made. */
  function Grown(cap: nat, need: nat): (c: nat)
    ensures c >= cap && c >= need
  {
    if need <= cap then cap else DoubledUntil(if cap == 0 then 256 else cap, need)
  }

  lemma DoublingStep(c: nat, need: nat)
    requires c > 0
    ensures DoubledUntil(c, need) == if c < need then DoubledUntil(c * 2, need) else c
  {
  }

  lemma DoublingStart(cap: nat, need: nat)
    ensures Grown(cap, need) == if need <= cap then cap else DoubledUntil(if cap == 0 then 256 else cap, need)
  {
  }

  lemma SmallestBlock()
    ensures Doubled(256)
  {
  }

  lemma TwiceIsDoubled(c: nat)
    requires Doubled(c)
    ensures Doubled(c * 2) && c >= 256
  {
  }

  /** Making room twice is making room once for the larger need. */
  lemma {:induction false} DoubledTwice(cap: nat, need: nat, more: nat)
    requires cap > 0 && need <= more
    ensures DoubledUntil(DoubledUntil(cap, need), more) == DoubledUntil(cap, more)
    decreases need - cap
  {
    if cap < need {
      DoubledTwice(cap * 2, need, more);
    }
  }

  lemma GrownTwice(cap: nat, need: nat, more: nat)
    requires need <= more
    ensures Grown(Grown(cap, need), more) == Grown(cap, more)
  {
    if cap < need {
      DoubledTwice(if cap == 0 then 256 else cap, need, more);
    }
  }

  /** `realloc`: a larger block with the old contents in front, or null when the allocator
      does not grant one. */
  method Reallocate(data: array?<char>, cap: nat, granted: bool) returns (p: array?<char>)
    requires data != null ==> data.Length <= cap
    ensures p != null <==> granted && cap <= MAX_ALLOCATION
    ensures p != null ==> fresh(p) && p.Length == cap
    ensures p != null && data != null ==> p[..data.Length] == data[..]
  {
    if cap > MAX_ALLOCATION || !granted {
      return null;
    }
    var grown := new char[cap];
    if data != null {
      forall k | 0 <= k < data.Length {
        grown[k] := data[k];
      }
      assert grown[..data.Length] == data[..];
    }
    return grown;
  }

  /** The loop of `sb_reserve`; a size never leaves the range of a `size_t`. */
  method LargerCapacity(cap: nat, need: nat) returns (grown: nat)
    requires cap < need <= SIZE_MAX / 2 && (cap == 0 || Doubled(cap))
    ensures grown == Grown(cap, need) && Doubled(grown) && grown >= 2 * cap
  {
    hide Grown, DoubledUntil, Doubled;
    DoublingStart(cap, need);
    SmallestBlock();
    grown := if cap == 0 then 256 else cap;
    while grown < need
      invariant Doubled(grown) && (grown == cap || grown >= 2 * cap)
      invariant DoubledUntil(grown, need) == Grown(cap, need)
      decreases need - grown
    {
      DoublingStep(grown, need);
      TwiceIsDoubled(grown);
      assert grown * 2 <= SIZE_MAX;
      grown := grown * 2;
    }
    DoublingStep(grown, need);
  }

  class Buffer {
    /** Which block sizes the allocator grants. */
    const grants: nat -> bool
    var data: array?<char>
    var len: nat
    var cap: nat
    var oom: bool
    /** Whether an allocation was ever refused. */
    ghost var refused: bool
    /** Whether an escaped text was ever too long for an int. */
    ghost var overflowed: bool
    /** The sum of the capacities that growing gave up. */
    ghost var discarded: nat

    ghost predicate Shape()
      reads this, data
    {
      && (data == null <==> cap == 0)
      && (data == null ==> len == 0 && discarded == 0)
      && (data != null ==>
          data.Length == cap && len < cap <= MAX_ALLOCATION && Doubled(cap) && discarded < cap)
      && (oom <==> refused || overflowed)
    }

    ghost predicate Valid()
      reads this, data
    {
      Shape() && (!oom && data != null ==> data[len] == '\0')
    }

    ghost function Contents(): string
      reads this, data
      requires Shape()
    {
      if data == null then [] else data[..len]
    }

    /** Room for `need` bytes can be made from capacity `c`. */
    predicate Granted(c: nat, need: nat) {
      need <= c || (Grown(c, need) <= MAX_ALLOCATION && grants(Grown(c, need)))
    }

    /** The allocator grants whatever making room for up to `need` bytes can ask for. */
    ghost predicate Roomy(need: nat) {
      2 * need <= MAX_ALLOCATION && forall c: nat :: c == 256 || c < 2 * need ==> grants(c)
    }

    lemma RoomyGrants(most: nat)
      requires Roomy(most)
      ensures forall c: nat, need: nat :: need <= most ==> Granted(c, need)
    {
      hide DoubledUntil;
    }

    lemma RoomyLess(most: nat, need: nat)
      requires need <= most
      ensures Roomy(most) ==> Roomy(need)
    {
    }

    /** `sb_init`. */
    constructor (grants: nat -> bool)
      ensures Valid() && Contents() == [] && !oom && data == null && this.grants == grants
    {
      this.grants := grants;
      data, len, cap, oom := null, 0, 0, false;
      refused, overflowed, discarded := false, false, 0;
    }

    /** `sb_reserve`: room for `extra` more bytes and a NUL. */
    method Reserve(extra: nat) returns (ok: bool)
      requires Shape() && extra <= 6 * MAX_TEXT + 1
      modifies this
      ensures Shape() && len == old(len) && Contents() == old(Contents())
      ensures data == old(data) || fresh(data)
      ensures ok <==> !oom
      ensures old(!oom) ==> (ok <==> Granted(old(cap), old(len) + extra + 1))
      ensures cap == if ok then Grown(old(cap), old(len) + extra + 1) else old(cap)
      ensures ok ==> data != null
      ensures ok && old(data) != null ==> data[len] == old(data[len])
      ensures old(oom) ==> oom && refused == old(refused)
      ensures overflowed == old(overflowed)
    {
      hide DoubledUntil, Doubled;
      if oom {
        return false;
      }
      var need := len + extra + 1;
      assert need <= SIZE_MAX;
      if need <= cap {
        return true;
      }
      var grown := LargerCapacity(cap, need);
      var p := Reallocate(data, grown, grants(grown));
      if p == null {
        oom, refused := true, true;
        return false;
      }
      discarded := discarded + cap;
      data, cap := p, grown;
      return true;
    }

    /** `sb_append`. */
    method Append(s: string)
      requires Shape() && |s| <= MAX_TEXT
      modifies this, data
      ensures Valid() && (data == old(data) || fresh(data))
      ensures old(!oom) ==> (oom <==> !Granted(old(cap), old(len) + |s| + 1))
      ensures !oom ==> cap == Grown(old(cap), old(len) + |s| + 1) && len == old(len) + |s|
      ensures !oom ==> !old(oom) && data != null && Contents() == old(Contents()) + s
      ensures oom ==> Contents() == old(Contents())
      ensures old(oom) ==> oom && refused == old(refused)
      ensures overflowed == old(overflowed)
    {
      var ok := Reserve(|s|);
      if !ok {
        return;
      }
      CopyInto(data, len, s);
      len := len + |s|;
      data[len] := '\0';
    }

    /** The middle of `sb_append_quoted`: the escaped text, straight into the buffer. The
        room reserved for six bytes a character is always enough; only the int that
        `json_escape` returns can be too small for the length. */
    method AppendEscaped(s: string)
      requires Shape() && |s| <= MAX_TEXT
      modifies this, data
      ensures Shape() && (data == old(data) || fresh(data))
      ensures overflowed <==> old(overflowed) || (!old(oom) && !refused && ToInt(|Escape(s)|) < 0)
      ensures old(!oom) ==> (refused <==> !Granted(old(cap), old(len) + 6 * |s| + 2))
      ensures !refused && old(!oom) ==> cap == Grown(old(cap), old(len) + 6 * |s| + 2)
      ensures old(oom) ==> refused == old(refused)
      ensures oom ==> Contents() == old(Contents())
      ensures !oom ==> ToInt(|Escape(s)|) >= 0 && data != null && len + 2 <= cap
      ensures !oom ==> len == old(len) + ToInt(|Escape(s)|)
      ensures !oom ==> Contents() == old(Contents()) + Escape(s)[..ToInt(|Escape(s)|)]
    {
      hide Escape, ToInt, DoubledUntil, Doubled;
      var ok := Reserve(|s| * 6 + 1);
      if !ok {
        return;
      }
      ghost var before := Contents();
      var w := EscapeInto(s, data, len, cap - len);
      assert Contents() == before;
      if w < 0 {
        oom, overflowed := true, true;
        return;
      }
      ghost var full := data[..len + |Escape(s)|];
      assert full == before + Escape(s);
      len := len + w;
      assert Contents() == full[..len];
      assert Contents() == before + Escape(s)[..w];
    }

    /** `sb_append_quoted`. */
    method AppendQuoted(s: string)
      requires Shape() && |s| <= MAX_TEXT
      modifies this, data
      ensures Valid() && (data == old(data) || fresh(data))
      ensures old(!oom) ==>
                (refused <==> !(Granted(old(cap), old(len) + 2)
                                && Granted(Grown(old(cap), old(len) + 2), old(len) + 6 * |s| + 3)))
      ensures !oom ==> cap == Grown(old(cap), old(len) + 6 * |s| + 3)
      ensures !oom ==> len == old(len) + 2 + ToInt(|Escape(s)|)
      ensures overflowed ==> old(overflowed) || ToInt(|Escape(s)|) < 0
      ensures old(overflowed) ==> overflowed
      ensures !old(oom) && !refused ==> (oom <==> ToInt(|Escape(s)|) < 0)
      ensures old(oom) ==> oom && refused == old(refused)
      ensures !oom ==> ToInt(|Escape(s)|) >= 0 && data != null
      ensures !oom ==> Contents() == old(Contents()) + ("\"" + Escape(s)[..ToInt(|Escape(s)|)] + "\"")
      ensures old(Contents()) <= Contents()
    {
      hide Escape, ToInt, Grown, DoubledUntil, Doubled, Shape, Contents;
      GrownTwice(cap, len + 2, len + 6 * |s| + 3);
      WhyOutOfMemory();
      Append("\"");
      WhyOutOfMemory();
      AppendEscaped(s);
      WhyOutOfMemory();
      if oom {
        return;
      }
      DoublingStart(cap, len + 2);
      Append("\"");
      WhyOutOfMemory();
    }

    lemma WhyOutOfMemory()
      requires Shape()
      ensures oom <==> refused || overflowed
    {
    }

    /** `sb_append_long`. */
    method AppendLong(v: int)
      requires Shape() && LONG_MIN <= v <= LONG_MAX
      modifies this, data
      ensures Valid() && (data == old(data) || fresh(data))
      ensures old(!oom) ==> (oom <==> !Granted(old(cap), old(len) + |PrintLong(v)| + 1))
      ensures !oom ==> cap == Grown(old(cap), old(len) + |PrintLong(v)| + 1) && len == old(len) + |PrintLong(v)|
      ensures !oom ==> !old(oom) && data != null && Contents() == old(Contents()) + PrintLong(v)
      ensures oom ==> Contents() == old(Contents())
      ensures old(oom) ==> oom && refused == old(refused)
      ensures overflowed == old(overflowed)
    {
      LongLength(v);
      Append(PrintLong(v));
    }
  }
}
