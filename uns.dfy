/** The off-heap memory helper of the chunked implementation (chunked/Uns).

    It hands out and takes back native memory through an allocator, wraps raw
    addresses in direct ByteBuffers, and, when the system property
    `debugOffHeapAccess` is set, keeps a debug registry of two maps: the
    outstanding allocations (address -> size and the stack trace of the
    allocation) and the traces of past frees (address -> trace). The registry
    catches an allocator that hands out an address twice, the release of memory
    that is not outstanding (a double free among them), and leaks at teardown.

    Its static initializer makes two choices, modelled here as functions: which
    Unsafe extension to use, from the `java.version` property, and which
    allocator to use, from the `allocator` property. */
module ChunkedUns {
  import opened JavaTypes
  import opened Alloc

  /** A stack trace captured by the debug code (an Exception object in the
      source), stood in for by a number that identifies it. */
  type Trace = nat

  /** What the registry keeps of an outstanding allocation. */
  datatype AllocInfo = AllocInfo(size: Long, trace: Trace)

  /** The exceptions and errors Uns raises. */
  datatype UnsError =
    | DuplicateAddress                                  // Error "Oops - allocate() got duplicate address"
    | UnallocatedFree(address: int, freedAt: Option<Trace>) // IllegalStateException "Free of unallocated region", caused by the earlier free if one is known
    | NotAllFreed(stillAllocated: map<int, AllocInfo>)  // RuntimeException "Not all allocated memory has been freed!"
    | OutOfMemory(bytes: Long)                          // OutOfMemoryError "unable to allocate ... in off-heap"
    | IllegalArgument                                   // directBufferFor: a negative length or one over Integer.MAX_VALUE
    | InitializerFailed                                 // AssertionError out of the static initializer

  datatype Result<T> = Ok(value: T) | Err(error: UnsError)

  datatype ByteOrder = BigEndian | LittleEndian

  /** A ByteBuffer as Uns sees it: a heap buffer, or a direct buffer over a raw
      address with the capacity and limit fields the reflection code writes. */
  datatype Buffer =
    | HeapBuffer
    | DirectBuffer(address: int, capacity: Int, limit: Int, order: ByteOrder)

  // ---------------------------------------------------------------------------
  // Direct buffers

  /** directBufferFor: a direct buffer over `len` bytes at the address. The
      length is narrowed to an int for the capacity and limit fields; the guard
      rejects exactly the lengths that the narrowing would change. */
  function DirectBufferFor(address: int, len: Long): (r: Result<Buffer>)
    ensures r.Err? <==> len < 0 || len > INT_MAX
    ensures r.Err? ==> r.error == IllegalArgument
    ensures r.Ok? ==> r.value == DirectBuffer(address, len, len, BigEndian)
  {
    if len > INT_MAX || len < 0 then Err(IllegalArgument)
    else Ok(DirectBuffer(address, Wrap32(len), Wrap32(len), BigEndian))
  }

  // ---------------------------------------------------------------------------
  // The choices of the static initializer

  /** The two allocators the `allocator` property chooses between. */
  datatype AllocatorKind = JnaNativeAllocator | UnsafeAllocator

  /** "unsafe" selects the Unsafe allocator; no property, "jna" or any other
      value selects the JNA allocator. */
  function SelectAllocator(property: Option<string>): (k: AllocatorKind)
    ensures k == UnsafeAllocator <==> property == Some("unsafe")
  {
    var allocType := if property.Some? then property.value else "jna";
    if allocType == "unsafe" then UnsafeAllocator else JnaNativeAllocator
  }

  /** The two implementations of the Unsafe extension. */
  datatype Ext = UnsExt7 | UnsExt8

  /** The version string up to, not including, its first '-'. */
  function StripDash(v: string): (r: string)
    ensures r <= v
    ensures forall i :: 0 <= i < |r| ==> r[i] != '-'
    ensures |r| < |v| ==> v[|r|] == '-'
  {
    if v == [] || v[0] == '-' then [] else [v[0]] + StripDash(v[1..])
  }

  /** The length of the token at the start of s: the characters before the
      first '.'. */
  function TokenLength(s: string): (k: nat)
    ensures k <= |s|
    ensures forall i :: 0 <= i < k ==> s[i] != '.'
    ensures k < |s| ==> s[k] == '.'
  {
    if s == [] || s[0] == '.' then 0 else 1 + TokenLength(s[1..])
  }

  /** The tokens a StringTokenizer with delimiter "." returns: the maximal
      non-empty runs of characters other than '.'. */
  function Tokens(s: string): seq<string>
    decreases |s|
  {
    if s == [] then []
    else if s[0] == '.' then Tokens(s[1..])
    else
      var k := TokenLength(s);
      [s[..k]] + Tokens(s[k..])
  }

  /** Tokens as a StringTokenizer returns them: non-empty, without a '.'. */
  predicate WellFormedTokens(ts: seq<string>)
  {
    forall i :: 0 <= i < |ts| ==> ts[i] != [] && forall j :: 0 <= j < |ts[i]| ==> ts[i][j] != '.'
  }

  lemma {:induction false} TokensWellFormed(s: string)
    ensures WellFormedTokens(Tokens(s))
    decreases |s|
  {
    if s == [] {
    } else if s[0] == '.' {
      assert Tokens(s) == Tokens(s[1..]);
      TokensWellFormed(s[1..]);
    } else {
      var k := TokenLength(s);
      TokensWellFormed(s[k..]);
      assert Tokens(s) == [s[..k]] + Tokens(s[k..]);
      assert s[..k] != [] && forall j :: 0 <= j < k ==> s[..k][j] == s[j];
    }
  }

  predicate IsDigit(c: char) { '0' <= c <= '9' }

  /** The value of a string of decimal digits. */
  function DigitsValue(s: string): nat
    requires forall i :: 0 <= i < |s| ==> IsDigit(s[i])
  {
    if s == [] then 0
    else
      assert IsDigit(s[|s| - 1]);
      DigitsValue(s[..|s| - 1]) * 10 + (s[|s| - 1] as int - '0' as int)
  }

  /** Integer.parseInt in radix 10: an optional sign, at least one decimal
      digit, and a value in the range of int; anything else is a
      NumberFormatException (None). */
  function ParseInt(t: string): (r: Option<Int>)
    ensures t == [] ==> r == None
    ensures r.Some? && t[0] != '-' ==> r.value >= 0
  {
    if t == [] then None
    else
      var digits := if t[0] == '-' || t[0] == '+' then t[1..] else t;
      if digits == [] || exists i :: 0 <= i < |digits| && !IsDigit(digits[i]) then None
      else
        var v := DigitsValue(digits);
        var x: int := if t[0] == '-' then -(v as int) else v;
        if INT_MIN <= x <= INT_MAX then Some(x) else None
  }

  /** The decimal representation of n, as Integer.toString writes it. */
  function Decimal(n: nat): (s: string)
    ensures s != []
    ensures forall i :: 0 <= i < |s| ==> IsDigit(s[i])
  {
    if n < 10 then [('0' as int + n) as char] else Decimal(n / 10) + [('0' as int + n % 10) as char]
  }

  /** Digits read back give the number they were written from. */
  lemma {:induction false} DigitsValueOfDecimal(n: nat)
    ensures DigitsValue(Decimal(n)) == n
  {
    var s := Decimal(n);
    if n >= 10 {
      assert s[..|s| - 1] == Decimal(n / 10);
      DigitsValueOfDecimal(n / 10);
    }
  }

  /** Integer.parseInt reads back any int Integer.toString writes. */
  lemma ParseIntOfDecimal(n: nat)
    requires n <= INT_MAX
    ensures ParseInt(Decimal(n)) == Some(n)
    ensures ParseInt("-" + Decimal(n)) == Some(-(n as int))
  {
    DigitsValueOfDecimal(n);
    assert ("-" + Decimal(n))[1..] == Decimal(n);
  }

  /** The Unsafe extension the static initializer picks for a java.version
      string, given whether the Java 8 class can be loaded: the part before the
      first '-' is split at '.'; the first token is the major version, the
      second, when there is one, the minor version (else 0). Java 8 methods are
      used when the major version is above 1 or the minor one at least 8, and
      then only if their class loads. A version that does not parse makes the
      initializer fail. */
  function SelectExt(javaVersion: string, java8Loads: bool): (r: Result<Ext>)
    ensures r.Ok? && r.value == UnsExt8 ==> java8Loads
  {
    var ts := Tokens(StripDash(javaVersion));
    if ts == [] then Err(InitializerFailed)
    else
      var major := ParseInt(ts[0]);
      var minor := if |ts| > 1 then ParseInt(ts[1]) else Some(0);
      if major.None? || minor.None? then Err(InitializerFailed)
      else if major.value > 1 || minor.value >= 8 then Ok(if java8Loads then UnsExt8 else UnsExt7)
      else Ok(UnsExt7)
  }

  /** Cutting at the first '-' passes over a prefix without one. */
  lemma {:induction false} StripDashAppend(a: string, b: string)
    requires forall i :: 0 <= i < |a| ==> a[i] != '-'
    ensures StripDash(a + b) == a + StripDash(b)
    decreases |a|
  {
    if a != [] {
      assert a[0] != '-';
      assert (a + b)[0] == a[0] && (a + b)[1..] == a[1..] + b;
      assert StripDash(a + b) == [a[0]] + StripDash(a[1..] + b);
      StripDashAppend(a[1..], b);
      assert a == [a[0]] + a[1..];
    } else {
      assert a + b == b;
    }
  }

  /** A token followed by a '.' or by nothing is the first token. */
  lemma {:induction false} TokensAppend(a: string, b: string)
    requires a != [] && forall i :: 0 <= i < |a| ==> a[i] != '.'
    requires b == [] || b[0] == '.'
    ensures Tokens(a + b) == [a] + Tokens(b)
  {
    TokenLengthOf(a, b);
    assert (a + b)[..|a|] == a && (a + b)[|a|..] == b;
  }

  lemma {:induction false} TokenLengthOf(a: string, b: string)
    requires forall i :: 0 <= i < |a| ==> a[i] != '.'
    requires b == [] || b[0] == '.'
    ensures TokenLength(a + b) == |a|
    decreases |a|
  {
    if a != [] {
      assert (a + b)[1..] == a[1..] + b;
      TokenLengthOf(a[1..], b);
    }
  }

  /** A '.' and a token: the token comes first. */
  lemma TokensAfterDot(mi: string, t: string)
    requires mi != [] && forall i :: 0 <= i < |mi| ==> mi[i] != '.'
    requires t == [] || t[0] == '.'
    ensures Tokens("." + mi + t) == [mi] + Tokens(t)
  {
    var rest := "." + mi + t;
    assert rest[0] == '.' && rest[1..] == mi + t;
    assert Tokens(rest) == Tokens(mi + t);
    TokensAppend(mi, t);
  }

  /** The first two tokens of "major.minor" followed by the rest of a version
      that was cut at its first '-'. */
  lemma TokensMajorMinor(ma: string, mi: string, t: string)
    requires ma != [] && forall i :: 0 <= i < |ma| ==> IsDigit(ma[i])
    requires mi != [] && forall i :: 0 <= i < |mi| ==> IsDigit(mi[i])
    requires t == [] || t[0] == '.'
    ensures Tokens(ma + "." + mi + t) == [ma, mi] + Tokens(t)
  {
    var rest := "." + mi + t;
    assert ma + "." + mi + t == ma + rest by {
      ConcatAssoc(ma, "." + mi, t);
      ConcatAssoc(ma, ".", mi);
    }
    assert Tokens(ma + rest) == [ma] + Tokens(rest) by {
      assert forall i :: 0 <= i < |ma| ==> ma[i] != '.';
      TokensAppend(ma, rest);
    }
    assert Tokens(rest) == [mi] + Tokens(t) by {
      assert forall i :: 0 <= i < |mi| ==> mi[i] != '.';
      TokensAfterDot(mi, t);
    }
    assert [ma] + ([mi] + Tokens(t)) == [ma, mi] + Tokens(t);
  }

  /** The part of "major.minor" + tail before the first '-'. */
  lemma StripDashMajorMinor(ma: string, mi: string, tail: string)
    requires forall i :: 0 <= i < |ma| ==> IsDigit(ma[i])
    requires forall i :: 0 <= i < |mi| ==> IsDigit(mi[i])
    ensures StripDash(ma + "." + mi + tail) == ma + "." + mi + StripDash(tail)
  {
    var v := ma + "." + mi;
    assert forall i :: 0 <= i < |v| ==> v[i] != '-' by {
      assert forall i :: 0 <= i < |ma| ==> v[i] == ma[i];
      assert forall i :: |ma| < i < |v| ==> v[i] == mi[i - |ma| - 1];
    }
    StripDashAppend(v, tail);
  }

  /** Versions such as "1.7.0_80", "1.8.0_151-b12" or "17.0.2": the first two
      numbers decide. */
  lemma SelectExtMajorMinor(major: nat, minor: nat, tail: string, java8Loads: bool)
    requires major <= INT_MAX && minor <= INT_MAX
    requires tail == [] || tail[0] == '.' || tail[0] == '-'
    ensures SelectExt(Decimal(major) + "." + Decimal(minor) + tail, java8Loads)
         == Ok(if (major > 1 || minor >= 8) && java8Loads then UnsExt8 else UnsExt7)
  {
    var ma, mi := Decimal(major), Decimal(minor);
    var t := StripDash(tail);
    StripDashMajorMinor(ma, mi, tail);
    assert t == [] || t[0] == '.';
    TokensMajorMinor(ma, mi, t);
    var ts := Tokens(StripDash(ma + "." + mi + tail));
    assert ts[0] == ma && ts[1] == mi;
    ParseIntOfDecimal(major);
    ParseIntOfDecimal(minor);
  }

  /** Versions such as "9", "11" or "21-ea": a single number is the major
      version and the minor one counts as 0. */
  lemma SelectExtMajorOnly(major: nat, tail: string, java8Loads: bool)
    requires major <= INT_MAX
    requires tail == [] || tail[0] == '-'
    ensures SelectExt(Decimal(major) + tail, java8Loads)
         == Ok(if major > 1 && java8Loads then UnsExt8 else UnsExt7)
  {
    StripDashAppend(Decimal(major), tail);
    assert Decimal(major) + StripDash(tail) == Decimal(major) + [];
    TokensAppend(Decimal(major), []);
    ParseIntOfDecimal(major);
  }

  // ---------------------------------------------------------------------------
  // Allocation with the debug registry

  class Uns {
    /** The `debugOffHeapAccess` system property. */
    const debug: bool
    /** The allocator the static initializer chose. */
    const allocator: Allocator
    /** ohDebug: the outstanding allocations. */
    var ohDebug: map<int, AllocInfo>
    /** ohFreeDebug: where each address was last freed. */
    var ohFreeDebug: map<int, Trace>

    /** With debug on, the registry tracks exactly the allocations the
        allocator has outstanding, with their sizes. */
    ghost predicate InSync()
      reads this, allocator
    {
      debug ==>
        && ohDebug.Keys == allocator.live.Keys
        && forall a :: a in ohDebug ==> ohDebug[a].size == allocator.live[a]
    }

    constructor (debug: bool, allocator: Allocator)
      requires allocator.live == map[]
      ensures this.debug == debug && this.allocator == allocator
      ensures ohDebug == map[] && ohFreeDebug == map[] && InSync()
    {
      this.debug := debug;
      this.allocator := allocator;
      ohDebug := map[];
      ohFreeDebug := map[];
    }

    /** allocated: record a new allocation. An address that is already
        outstanding means the allocator handed it out twice. */
    method Allocated(address: int, bytes: Long, trace: Trace) returns (r: Result<()>)
      modifies this
      ensures !debug ==> r == Ok(()) && unchanged(this)
      ensures debug ==> (r.Err? <==> address in old(ohDebug))
      ensures debug && r.Err? ==> r.error == DuplicateAddress && unchanged(this)
      ensures debug && r.Ok? ==>
        ohDebug == old(ohDebug)[address := AllocInfo(bytes, trace)] && ohFreeDebug == old(ohFreeDebug) - {address}
    {
      if debug {
        if address in ohDebug {
          return Err(DuplicateAddress);
        }
        ohDebug := ohDebug[address := AllocInfo(bytes, trace)];
        ohFreeDebug := ohFreeDebug - {address};
      }
      r := Ok(());
    }

    /** freed: retire an allocation. Freeing an address that is not outstanding
        fails, with the trace of its earlier free when there was one. */
    method Freed(address: int, trace: Trace) returns (r: Result<()>)
      modifies this
      ensures !debug ==> r == Ok(()) && unchanged(this)
      ensures debug ==> (r.Err? <==> address !in old(ohDebug))
      ensures debug && r.Err? ==>
        && r.error == UnallocatedFree(address, if address in old(ohFreeDebug) then Some(old(ohFreeDebug)[address]) else None)
        && unchanged(this)
      ensures debug && r.Ok? ==>
        ohDebug == old(ohDebug) - {address} && ohFreeDebug == old(ohFreeDebug)[address := trace]
    {
      if debug {
        if address !in ohDebug {
          var freedAt := if address in ohFreeDebug then Some(ohFreeDebug[address]) else None;
          return Err(UnallocatedFree(address, freedAt));
        }
        ohDebug := ohDebug - {address};
        ohFreeDebug := ohFreeDebug[address := trace];
      }
      r := Ok(());
    }

    /** clearUnsDebugForTest: report a leak if anything is still outstanding;
        both maps are emptied either way. */
    method ClearUnsDebugForTest() returns (r: Result<()>)
      modifies this
      ensures !debug ==> r == Ok(()) && unchanged(this)
      ensures debug ==> (r.Err? <==> old(ohDebug) != map[])
      ensures debug && r.Err? ==> r.error == NotAllFreed(old(ohDebug))
      ensures debug ==> ohDebug == map[] && ohFreeDebug == map[]
      ensures debug && old(InSync()) ==> (r.Err? <==> old(allocator.live) != map[])
    {
      r := Ok(());
      if debug {
        if ohDebug != map[] {
          r := Err(NotAllFreed(ohDebug));
        }
        ohDebug := map[];
        ohFreeDebug := map[];
      }
    }

    /** allocate: ask the allocator; 0 means out of native memory, which is an
        OutOfMemoryError or null as throwOOME says. Otherwise the address is
        registered and wrapped in a direct buffer of `bytes` bytes. */
    method Allocate(bytes: Long, throwOOME: bool, trace: Trace) returns (r: Result<Option<Buffer>>, ghost address: int)
      requires allocator.Valid()
      modifies this, allocator
      ensures allocator.Valid()
      ensures address == 0 <==> bytes < 0 || bytes > old(allocator.available)
      ensures address == 0 ==>
        && r == (if throwOOME then Err(OutOfMemory(bytes)) else Ok(None))
        && unchanged(this) && allocator.live == old(allocator.live)
      ensures address != 0 ==>
        && address !in old(allocator.live) && allocator.live == old(allocator.live)[address := bytes]
      ensures address != 0 && debug && address in old(ohDebug) ==> r == Err(DuplicateAddress) && unchanged(this)
      ensures address != 0 && !(debug && address in old(ohDebug)) ==>
        && (debug ==> ohDebug == old(ohDebug)[address := AllocInfo(bytes, trace)])
        && (debug ==> ohFreeDebug == old(ohFreeDebug) - {address})
        && r == (if bytes <= INT_MAX then Ok(Some(DirectBuffer(address, bytes, bytes, BigEndian))) else Err(IllegalArgument))
      ensures !debug ==> ohDebug == old(ohDebug) && ohFreeDebug == old(ohFreeDebug)
      ensures old(InSync()) ==> InSync() && r != Err(DuplicateAddress)
    {
      var a := allocator.Allocate(bytes);
      address := a;
      if a == 0 {
        if throwOOME {
          return Err(OutOfMemory(bytes)), a;
        }
        return Ok(None), a;
      }
      var tracked := Allocated(a, bytes, trace);
      if tracked.Err? {
        return Err(tracked.error), a;
      }
      var buffer := DirectBufferFor(a, bytes);
      if buffer.Err? {
        return Err(buffer.error), a;
      }
      r := Ok(Some(buffer.value));
    }

    /** free: nothing for null or a heap buffer; otherwise the address is
        retired in the registry first and given back to the allocator only
        when that succeeds. */
    method Free(buffer: Option<Buffer>, trace: Trace) returns (r: Result<()>)
      requires allocator.Valid()
      modifies this, allocator
      ensures allocator.Valid()
      ensures buffer.None? || buffer.value.HeapBuffer? ==> r == Ok(()) && unchanged(this, allocator)
      ensures buffer.Some? && buffer.value.DirectBuffer? ==>
        var a := buffer.value.address;
        && (debug && a !in old(ohDebug) ==>
              && r == Err(UnallocatedFree(a, if a in old(ohFreeDebug) then Some(old(ohFreeDebug)[a]) else None))
              && unchanged(this, allocator))
        && (!(debug && a !in old(ohDebug)) ==> r == Ok(()))
        && (!(debug && a !in old(ohDebug)) ==> allocator.live == old(allocator.live) - {a})
        && (debug && a in old(ohDebug) ==> ohDebug == old(ohDebug) - {a} && ohFreeDebug == old(ohFreeDebug)[a := trace])
      ensures !debug ==> ohDebug == old(ohDebug) && ohFreeDebug == old(ohFreeDebug)
      ensures old(InSync()) ==> InSync()
    {
      if buffer.None? || buffer.value.HeapBuffer? {
        return Ok(());
      }
      var address := buffer.value.address;
      r := Freed(address, trace);
      if r.Err? {
        return;
      }
      allocator.Free(address);
      r := Ok(());
    }
  }

  /** With the registry in debug mode, freeing the same buffer twice is always
      caught: the second free fails and leaves the allocator alone. */
  method FreeTwice(uns: Uns, address: int, trace1: Trace, trace2: Trace) returns (first: Result<()>, second: Result<()>)
    requires uns.allocator.Valid() && uns.debug
    modifies uns, uns.allocator
    ensures first.Ok? ==> second == Err(UnallocatedFree(address, Some(trace1)))
  {
    var b := Some(DirectBuffer(address, 0, 0, BigEndian));
    first := uns.Free(b, trace1);
    second := uns.Free(b, trace2);
  }
}
