/**
 The image of arguments that a new program finds on its stack
 (kernel/api/elf32.c): its size, how it is laid out in a buffer, and what the program
 reads when it follows the pointers in it.
 */
module Elf32 {
  import opened Bytes

  const AT_NULL: int := 0
  const AT_PHDR: int := 3

  /** An entry of the auxiliary vector: a type and a value or pointer. */
  datatype Aux = Aux(atype: word, value: word)

  type CString = s: seq<byte> | forall i :: 0 <= i < |s| ==> s[i] != 0

  // Sizes

  /** The strings with their NULs, one after the other. */
  function StringsSize(strs: seq<CString>): nat
  {
    if strs == [] then 0 else StringsSize(strs[..|strs| - 1]) + |strs[|strs| - 1]| + 1
  }

  function Headers(auxv: seq<Aux>): nat
  {
    if auxv == [] then 0 else Headers(auxv[..|auxv| - 1]) + (if auxv[|auxv| - 1].atype == AT_PHDR then 1 else 0)
  }

  function VectorsSize(argc: nat, envc: nat, auxc: nat): nat { (argc + 1 + envc + 1) * 4 + (auxc + 1) * 8 }

  function ArgSize(argv: seq<CString>, envp: seq<CString>, auxv: seq<Aux>, phtsize: nat): nat
  {
    16 + VectorsSize(|argv|, |envp|, |auxv|) + StringsSize(argv) + StringsSize(envp) + Headers(auxv) * phtsize
  }

  lemma StringsNext(strs: seq<CString>, i: nat)
    requires i < |strs|
    ensures StringsSize(strs[..i + 1]) == StringsSize(strs[..i]) + |strs[i]| + 1
  {
    assert strs[..i + 1][..i] == strs[..i];
  }

  lemma HeadersNext(auxv: seq<Aux>, i: nat)
    requires i < |auxv|
    ensures Headers(auxv[..i + 1]) == Headers(auxv[..i]) + (if auxv[i].atype == AT_PHDR then 1 else 0)
  {
    assert auxv[..i + 1][..i] == auxv[..i];
  }

  /** _elf32_calc_argsize. */
  method CalcArgsize(argv: seq<CString>, envp: seq<CString>, auxv: seq<Aux>, phtsize: nat) returns (size: nat)
    ensures size == ArgSize(argv, envp, auxv, phtsize)
    ensures size
         == StringsOffset(|argv|, |envp|, |auxv|) + StringsSize(argv) + StringsSize(envp) + Headers(auxv) * phtsize
  {
    size := 0;
    var i := 0;
    while i < |argv|
      invariant 0 <= i <= |argv| && size == StringsSize(argv[..i])
    {
      StringsNext(argv, i);
      size := size + |argv[i]| + 1;
      i := i + 1;
    }
    assert argv[..i] == argv;
    size := size + (i + 1) * 4;
    ghost var first := size;
    i := 0;
    while i < |envp|
      invariant 0 <= i <= |envp| && size == first + StringsSize(envp[..i])
    {
      StringsNext(envp, i);
      size := size + |envp[i]| + 1;
      i := i + 1;
    }
    assert envp[..i] == envp;
    size := size + (i + 1) * 4;
    first := size;
    i := 0;
    while i < |auxv|
      invariant 0 <= i <= |auxv| && size == first + Headers(auxv[..i]) * phtsize
    {
      HeadersNext(auxv, i);
      Distribute(Headers(auxv[..i]), phtsize);
      if auxv[i].atype == AT_PHDR {
        size := size + phtsize;
      }
      i := i + 1;
    }
    assert auxv[..i] == auxv;
    size := size + (i + 1) * 8;
    size := size + 4;
    size := size + 3 * 4;
  }

  lemma Distribute(k: nat, x: nat)
    ensures (k + 1) * x == k * x + x
  {
  }

  // What is where in a buffer

  /** The buffer holds data at an offset. */
  ghost predicate Has(b: seq<byte>, offset: nat, data: seq<byte>)
  {
    offset + |data| <= |b| && b[offset..offset + |data|] == data
  }

  /** Nothing but one or two ranges has changed. */
  ghost predicate SameBut(b: seq<byte>, b': seq<byte>, lo: nat, hi: nat, lo2: nat, hi2: nat)
  {
    |b'| == |b| && forall i :: 0 <= i < |b| && !(lo <= i < hi) && !(lo2 <= i < hi2) ==> b'[i] == b[i]
  }

  lemma HasKept(b: seq<byte>, b': seq<byte>, lo: nat, hi: nat, lo2: nat, hi2: nat, offset: nat, data: seq<byte>)
    requires SameBut(b, b', lo, hi, lo2, hi2) && Has(b, offset, data)
    requires offset + |data| <= lo || hi <= offset
    requires offset + |data| <= lo2 || hi2 <= offset
    ensures Has(b', offset, data)
  {
    var s, s' := b[offset..offset + |data|], b'[offset..offset + |data|];
    assert forall i :: 0 <= i < |s| ==> s'[i] == s[i];
  }

  /** memcpy, strcpy and storing a word. */
  method PutBytes(buf: array<byte>, offset: nat, data: seq<byte>)
    requires offset + |data| <= buf.Length
    modifies buf
    ensures Has(buf[..], offset, data) && SameBut(old(buf[..]), buf[..], offset, offset + |data|, 0, 0)
  {
    var i := 0;
    while i < |data|
      invariant 0 <= i <= |data|
      invariant forall k :: 0 <= k < i ==> buf[offset + k] == data[k]
      invariant forall k :: 0 <= k < buf.Length && !(offset <= k < offset + i) ==> buf[k] == old(buf[k])
    {
      buf[offset + i] := data[i];
      i := i + 1;
    }
  }

  method PutWord(buf: array<byte>, offset: nat, w: word)
    requires offset + 4 <= buf.Length
    modifies buf
    ensures Has(buf[..], offset, Pack(w)) && SameBut(old(buf[..]), buf[..], offset, offset + 4, 0, 0)
  {
    PutBytes(buf, offset, Pack(w));
  }

  // A vector of strings

  /** The offset of the k-th string. */
  function StringOffset(str: nat, strs: seq<CString>, k: nat): nat
    requires k <= |strs|
  {
    str + StringsSize(strs[..k])
  }

  /** The first n pointers at vec, to be followed in an image at arglow, lead to the strings placed from str on. */
  ghost predicate Vector(b: seq<byte>, arglow: nat, vec: nat, str: nat, strs: seq<CString>, n: nat)
    requires n <= |strs| && arglow + |b| <= 0x1_0000_0000
  {
    forall k: nat :: k < n ==>
      && StringOffset(str, strs, k) < |b|
      && Has(b, vec + 4 * k, Pack(arglow + StringOffset(str, strs, k)))
      && Has(b, StringOffset(str, strs, k), strs[k] + [0])
  }

  lemma StringsGrow(strs: seq<CString>, j: nat, k: nat)
    requires j <= k <= |strs|
    ensures StringsSize(strs[..j]) <= StringsSize(strs[..k]) <= StringsSize(strs)
    ensures j < k ==> StringsSize(strs[..j]) + |strs[j]| + 1 <= StringsSize(strs[..k])
    decreases |strs| - j
  {
    if j < |strs| {
      StringsNext(strs, j);
      StringsGrow(strs, j + 1, if j < k then k else |strs|);
      if j < k { StringsGrow(strs, k, k); }
    } else {
      assert strs[..j] == strs;
    }
  }

  /** Strings and pointers in place stay there when later ones are written. */
  lemma VectorKept(b: seq<byte>, b': seq<byte>, arglow: nat, vec: nat, str: nat, strs: seq<CString>, n: nat,
                   lo: nat, hi: nat, lo2: nat, hi2: nat)
    requires n <= |strs| && arglow + |b| <= 0x1_0000_0000 && Vector(b, arglow, vec, str, strs, n)
    requires SameBut(b, b', lo, hi, lo2, hi2)
    requires (vec + 4 * n <= lo || hi <= vec) && (StringOffset(str, strs, n) <= lo || hi <= str)
    requires (vec + 4 * n <= lo2 || hi2 <= vec) && (StringOffset(str, strs, n) <= lo2 || hi2 <= str)
    ensures |b'| == |b| && Vector(b', arglow, vec, str, strs, n)
  {
    hide Has, SameBut, StringsSize, Pack;
    SameLength(b, b', lo, hi, lo2, hi2);
    forall k: nat | k < n
      ensures StringOffset(str, strs, k) < |b'|
      ensures Has(b', vec + 4 * k, Pack(arglow + StringOffset(str, strs, k)))
      ensures Has(b', StringOffset(str, strs, k), strs[k] + [0])
    {
      StringsGrow(strs, k, n);
      HasKept(b, b', lo, hi, lo2, hi2, vec + 4 * k, Pack(arglow + StringOffset(str, strs, k)));
      HasKept(b, b', lo, hi, lo2, hi2, StringOffset(str, strs, k), strs[k] + [0]);
    }
  }

  lemma SameLength(b: seq<byte>, b': seq<byte>, lo: nat, hi: nat, lo2: nat, hi2: nat)
    requires SameBut(b, b', lo, hi, lo2, hi2)
    ensures |b'| == |b|
  {
  }

  lemma VectorNext(b: seq<byte>, arglow: nat, vec: nat, str: nat, strs: seq<CString>, n: nat)
    requires n < |strs| && arglow + |b| <= 0x1_0000_0000 && Vector(b, arglow, vec, str, strs, n)
    requires StringOffset(str, strs, n) < |b|
    requires Has(b, vec + 4 * n, Pack(arglow + StringOffset(str, strs, n)))
    requires Has(b, StringOffset(str, strs, n), strs[n] + [0])
    ensures Vector(b, arglow, vec, str, strs, n + 1)
  {
    hide Has;
    forall k: nat | k < n + 1
      ensures StringOffset(str, strs, k) < |b|
      ensures Has(b, vec + 4 * k, Pack(arglow + StringOffset(str, strs, k)))
      ensures Has(b, StringOffset(str, strs, k), strs[k] + [0])
    {
    }
  }

  /** The loop over argv, and the one over envp: each string and the pointer to it, and a null pointer at the end. */
  method LoadVector(buf: array<byte>, arglow: nat, vec: nat, str: nat, strs: seq<CString>)
      returns (vecstart: nat, strstart: nat)
    requires arglow + buf.Length < 0x1_0000_0000 && vec + 4 * (|strs| + 1) <= str
    requires str + StringsSize(strs) <= buf.Length
    modifies buf
    ensures vecstart == vec + 4 * (|strs| + 1) && strstart == str + StringsSize(strs)
    ensures Vector(buf[..], arglow, vec, str, strs, |strs|) && Has(buf[..], vec + 4 * |strs|, Pack(0))
    ensures SameBut(old(buf[..]), buf[..], vec, vecstart, str, strstart)
  {
    hide Has, SameBut, Pack, Vector, StringsSize;
    ghost var b0 := buf[..];
    vecstart, strstart := vec, str;
    NoStrings(b0, arglow, vec, str, strs);
    var i := 0;
    while i < |strs|
      invariant 0 <= i <= |strs| && vecstart == vec + 4 * i && strstart == StringOffset(str, strs, i)
      invariant Vector(buf[..], arglow, vec, str, strs, i)
      invariant SameBut(b0, buf[..], vec, vecstart, str, strstart)
    {
      StringsNext(strs, i);
      StringsGrow(strs, i + 1, |strs|);
      assert strs[..|strs|] == strs;
      ghost var b1 := buf[..];
      PutBytes(buf, strstart, strs[i] + [0]);
      ghost var b2 := buf[..];
      VectorKept(b1, b2, arglow, vec, str, strs, i, strstart, strstart + |strs[i]| + 1, 0, 0);
      PutWord(buf, vecstart, arglow + strstart);
      VectorKept(b2, buf[..], arglow, vec, str, strs, i, vecstart, vecstart + 4, 0, 0);
      HasKept(b2, buf[..], vecstart, vecstart + 4, 0, 0, strstart, strs[i] + [0]);
      VectorNext(buf[..], arglow, vec, str, strs, i);
      TwoWrites(b0, b1, b2, buf[..], vec, vecstart, str, strstart, |strs[i]| + 1);
      strstart := strstart + |strs[i]| + 1;
      vecstart := vecstart + 4;
      i := i + 1;
    }
    assert strs[..|strs|] == strs;
    ghost var b1 := buf[..];
    PutWord(buf, vecstart, 0);
    VectorKept(b1, buf[..], arglow, vec, str, strs, |strs|, vecstart, vecstart + 4, 0, 0);
    OneWrite(b0, b1, buf[..], vec, vecstart, str, strstart);
    vecstart := vecstart + 4;
  }

  lemma NoStrings(b: seq<byte>, arglow: nat, vec: nat, str: nat, strs: seq<CString>)
    requires arglow + |b| <= 0x1_0000_0000
    ensures Vector(b, arglow, vec, str, strs, 0) && SameBut(b, b, vec, vec, str, str)
    ensures StringOffset(str, strs, 0) == str
  {
  }

  lemma TwoWrites(a: seq<byte>, b: seq<byte>, c: seq<byte>, d: seq<byte>, vec: nat, v: nat, str: nat, s: nat, n: nat)
    requires SameBut(a, b, vec, v, str, s) && SameBut(b, c, s, s + n, 0, 0) && SameBut(c, d, v, v + 4, 0, 0)
    requires vec <= v && str <= s
    ensures SameBut(a, d, vec, v + 4, str, s + n)
  {
  }

  lemma OneWrite(a: seq<byte>, b: seq<byte>, c: seq<byte>, vec: nat, v: nat, str: nat, s: nat)
    requires SameBut(a, b, vec, v, str, s) && SameBut(b, c, v, v + 4, 0, 0) && vec <= v
    ensures SameBut(a, c, vec, v + 4, str, s)
  {
  }

  // The auxiliary vector

  /** The entry as the program sees it: the program header table is where str is. */
  function Relocated(a: Aux, address: word): Aux
  {
    if a.atype == AT_PHDR then a.(value := address) else a
  }

  function AuxBytes(a: Aux): seq<byte> { Pack(a.atype) + Pack(a.value) }

  ghost predicate AuxVector(b: seq<byte>, vec: nat, auxv: seq<Aux>, n: nat, address: word)
    requires n <= |auxv|
  {
    forall k: nat :: k < n ==> Has(b, vec + 8 * k, AuxBytes(Relocated(auxv[k], address)))
  }

  lemma AuxKept(b: seq<byte>, b': seq<byte>, vec: nat, auxv: seq<Aux>, n: nat, address: word, lo: nat, hi: nat)
    requires n <= |auxv| && AuxVector(b, vec, auxv, n, address) && SameBut(b, b', lo, hi, 0, 0)
    requires (vec + 8 * n <= lo || hi <= vec)
    ensures AuxVector(b', vec, auxv, n, address)
  {
    hide Has, SameBut, Pack;
    forall k: nat | k < n ensures Has(b', vec + 8 * k, AuxBytes(Relocated(auxv[k], address))) {
      HasKept(b, b', lo, hi, 0, 0, vec + 8 * k, AuxBytes(Relocated(auxv[k], address)));
    }
  }

  /** The value of the last entry for the program header table. */
  function LastHeader(auxv: seq<Aux>): seq<word>
  {
    if auxv == [] then []
    else if auxv[|auxv| - 1].atype == AT_PHDR then [auxv[|auxv| - 1].value] else LastHeader(auxv[..|auxv| - 1])
  }

  lemma LastHeaderNext(auxv: seq<Aux>, i: nat)
    requires i < |auxv|
    ensures LastHeader(auxv[..i + 1]) == if auxv[i].atype == AT_PHDR then [auxv[i].value] else LastHeader(auxv[..i])
  {
    assert auxv[..i + 1][..i] == auxv[..i];
  }

  lemma {:induction false} LastHeaderExists(auxv: seq<Aux>)
    ensures |LastHeader(auxv)| <= 1 && (LastHeader(auxv) != [] <==> Headers(auxv) > 0)
  {
    if auxv != [] { LastHeaderExists(auxv[..|auxv| - 1]); }
  }

  /** The table at str is that of the last such entry. */
  ghost predicate TableAt(b: seq<byte>, str: nat, auxv: seq<Aux>, pht: word -> seq<byte>)
  {
    forall a :: a in LastHeader(auxv) ==> Has(b, str, pht(a))
  }

  /** One entry, and the program header table if the entry points to it. */
  method LoadEntry(buf: array<byte>, vec: nat, str: nat, a: Aux, address: word, phtsize: nat, pht: word -> seq<byte>)
    requires vec + 8 <= str && vec + 8 <= buf.Length && |pht(a.value)| == phtsize
    requires a.atype == AT_PHDR ==> str + phtsize <= buf.Length
    modifies buf
    ensures Has(buf[..], vec, AuxBytes(Relocated(a, address)))
    ensures a.atype == AT_PHDR ==> Has(buf[..], str, pht(a.value))
    ensures SameBut(old(buf[..]), buf[..], vec, vec + 8, str, if a.atype == AT_PHDR then str + phtsize else str)
  {
    hide Pack;
    PutBytes(buf, vec, Pack(a.atype) + Pack(a.value));
    if a.atype == AT_PHDR {
      ghost var b1 := buf[..];
      PutBytes(buf, str, pht(a.value));
      ghost var b2 := buf[..];
      HasKept(b1, b2, str, str + phtsize, 0, 0, vec, Pack(a.atype) + Pack(a.value));
      PutWord(buf, vec + 4, address);
      HasKept(b2, buf[..], vec + 4, vec + 8, 0, 0, str, pht(a.value));
      Halves(b2, buf[..], vec, a.atype, a.value, address);
    }
  }

  lemma Halves(b: seq<byte>, b': seq<byte>, vec: nat, t: word, v: word, v': word)
    requires Has(b, vec, Pack(t) + Pack(v)) && SameBut(b, b', vec + 4, vec + 8, 0, 0) && Has(b', vec + 4, Pack(v'))
    ensures Has(b', vec, Pack(t) + Pack(v'))
  {
    var s, s' := b[vec..vec + 8], b'[vec..vec + 8];
    assert s[..4] == Pack(t);
    assert s'[..4] == s[..4];
    assert s'[4..] == b'[vec + 4..vec + 8];
    assert s' == s'[..4] + s'[4..];
  }

  /** The loop over auxv. */
  method LoadAux(buf: array<byte>, vec: nat, str: nat, auxv: seq<Aux>, address: word, phtsize: nat,
                 pht: word -> seq<byte>)
    requires vec + 8 * (|auxv| + 1) <= str <= buf.Length && (Headers(auxv) > 0 ==> str + phtsize <= buf.Length)
    requires forall a :: |pht(a)| == phtsize
    modifies buf
    ensures AuxVector(buf[..], vec, auxv, |auxv|, address) && Has(buf[..], vec + 8 * |auxv|, Pack(AT_NULL))
    ensures TableAt(buf[..], str, auxv, pht)
    ensures SameBut(old(buf[..]), buf[..], vec, vec + 8 * |auxv| + 4, str, buf.Length)
  {
    hide Has, SameBut, Pack, AuxVector, Headers, AuxBytes;
    ghost var b0 := buf[..];
    NoEntries(b0, vec, str, auxv, address, pht);
    var i := 0;
    while i < |auxv|
      invariant 0 <= i <= |auxv| && AuxVector(buf[..], vec, auxv, i, address) && TableAt(buf[..], str, auxv[..i], pht)
      invariant SameBut(b0, buf[..], vec, vec + 8 * i, str, buf.Length)
    {
      HeadersGrow(auxv, i);
      LastHeaderNext(auxv, i);
      ghost var b1 := buf[..];
      LoadEntry(buf, vec + 8 * i, str, auxv[i], address, phtsize, pht);
      EntryAdded(b0, b1, buf[..], vec, str, auxv, i, address, phtsize, pht);
      i := i + 1;
    }
    assert auxv[..|auxv|] == auxv;
    ghost var b1 := buf[..];
    PutWord(buf, vec + 8 * |auxv|, AT_NULL);
    AuxKept(b1, buf[..], vec, auxv, |auxv|, address, vec + 8 * |auxv|, vec + 8 * |auxv| + 4);
    TableKept(b1, buf[..], str, auxv, pht, vec + 8 * |auxv|, vec + 8 * |auxv| + 4);
    OneWrite(b0, b1, buf[..], vec, vec + 8 * |auxv|, str, buf.Length);
  }

  lemma NoEntries(b: seq<byte>, vec: nat, str: nat, auxv: seq<Aux>, address: word, pht: word -> seq<byte>)
    ensures AuxVector(b, vec, auxv, 0, address) && TableAt(b, str, auxv[..0], pht) && SameBut(b, b, vec, vec, str, |b|)
  {
  }

  lemma {:induction false} HeadersGrow(auxv: seq<Aux>, i: nat)
    requires i < |auxv|
    ensures auxv[i].atype == AT_PHDR ==> Headers(auxv) > 0
    decreases |auxv|
  {
    if i < |auxv| - 1 { HeadersGrow(auxv[..|auxv| - 1], i); }
  }

  lemma TableKept(b: seq<byte>, b': seq<byte>, str: nat, auxv: seq<Aux>, pht: word -> seq<byte>, lo: nat, hi: nat)
    requires TableAt(b, str, auxv, pht) && SameBut(b, b', lo, hi, 0, 0) && hi <= str
    ensures TableAt(b', str, auxv, pht)
  {
    hide Has, SameBut;
    forall a | a in LastHeader(auxv) ensures Has(b', str, pht(a)) { HasKept(b, b', lo, hi, 0, 0, str, pht(a)); }
  }

  lemma EntryAdded(b0: seq<byte>, b1: seq<byte>, b2: seq<byte>, vec: nat, str: nat, auxv: seq<Aux>, i: nat,
                   address: word,
                   phtsize: nat, pht: word -> seq<byte>)
    requires i < |auxv| && vec + 8 * (i + 1) <= str && AuxVector(b1, vec, auxv, i, address)
    requires TableAt(b1, str, auxv[..i], pht)
    requires SameBut(b0, b1, vec, vec + 8 * i, str, |b0|)
    requires SameBut(b1, b2, vec + 8 * i, vec + 8 * i + 8, str, if auxv[i].atype == AT_PHDR then str + phtsize else str)
    requires Has(b2, vec + 8 * i, AuxBytes(Relocated(auxv[i], address)))
    requires auxv[i].atype == AT_PHDR ==> Has(b2, str, pht(auxv[i].value))
    requires LastHeader(auxv[..i + 1]) == if auxv[i].atype == AT_PHDR then [auxv[i].value] else LastHeader(auxv[..i])
    ensures AuxVector(b2, vec, auxv, i + 1, address) && TableAt(b2, str, auxv[..i + 1], pht)
    ensures SameBut(b0, b2, vec, vec + 8 * (i + 1), str, |b0|)
  {
    hide Pack, AuxBytes, LastHeader;
    assert |AuxBytes(Relocated(auxv[i], address))| == 8 by { EightBytes(Relocated(auxv[i], address)); }
    forall k: nat | k < i + 1 ensures Has(b2, vec + 8 * k, AuxBytes(Relocated(auxv[k], address))) {
      EightBytes(Relocated(auxv[k], address));
      if k < i {
        HasKept(b1, b2, vec + 8 * i, vec + 8 * i + 8, str, if auxv[i].atype == AT_PHDR then str + phtsize else str,
                vec + 8 * k, AuxBytes(Relocated(auxv[k], address)));
      }
    }
    if auxv[i].atype != AT_PHDR {
      forall a | a in LastHeader(auxv[..i]) ensures Has(b2, str, pht(a)) {
        HasKept(b1, b2, vec + 8 * i, vec + 8 * i + 8, str, str, str, pht(a));
      }
    }
  }

  lemma EightBytes(a: Aux)
    ensures |AuxBytes(a)| == 8
  {
  }

  // The image

  function EnvOffset(argc: nat): nat { 16 + 4 * (argc + 1) }

  function AuxOffset(argc: nat, envc: nat): nat { EnvOffset(argc) + 4 * (envc + 1) }

  function StringsOffset(argc: nat, envc: nat, auxc: nat): nat { AuxOffset(argc, envc) + 8 * (auxc + 1) }

  /** argc and the three pointers that main gets. */
  ghost predicate Head(b: seq<byte>, arglow: nat, argc: nat, envc: nat)
  {
    && argc < 0x1_0000_0000 && arglow + AuxOffset(argc, envc) < 0x1_0000_0000
    && Has(b, 0, Pack(argc)) && Has(b, 4, Pack(arglow + 16))
    && Has(b, 8, Pack(arglow + EnvOffset(argc))) && Has(b, 12, Pack(arglow + AuxOffset(argc, envc)))
  }

  ghost predicate Image(b: seq<byte>, arglow: nat, argv: seq<CString>, envp: seq<CString>, auxv: seq<Aux>,
                        pht: word -> seq<byte>)
    requires arglow + |b| < 0x1_0000_0000
  {
    var argc, envc, auxc := |argv|, |envp|, |auxv|;
    var str := StringsOffset(argc, envc, auxc);
    var table := str + StringsSize(argv) + StringsSize(envp);
    && Head(b, arglow, argc, envc) && table <= |b|
    && Vector(b, arglow, 16, str, argv, argc) && Has(b, 16 + 4 * argc, Pack(0))
    && Vector(b, arglow, EnvOffset(argc), str + StringsSize(argv), envp, envc)
    && Has(b, EnvOffset(argc) + 4 * envc, Pack(0))
    && AuxVector(b, AuxOffset(argc, envc), auxv, auxc, arglow + table)
    && Has(b, AuxOffset(argc, envc) + 8 * auxc, Pack(AT_NULL))
    && TableAt(b, table, auxv, pht)
  }

  method LoadHead(buf: array<byte>, arglow: nat, argc: nat, envc: nat)
    requires argc < 0x1_0000_0000 && arglow + AuxOffset(argc, envc) < 0x1_0000_0000 && 16 <= buf.Length
    modifies buf
    ensures Head(buf[..], arglow, argc, envc)
  {
    hide Pack, SameBut, Has;
    PutWord(buf, 0, argc);
    ghost var b1 := buf[..];
    PutWord(buf, 4, arglow + 16);
    ghost var b2 := buf[..];
    PutWord(buf, 8, arglow + EnvOffset(argc));
    ghost var b3 := buf[..];
    PutWord(buf, 12, arglow + AuxOffset(argc, envc));
    HasKept(b1, b2, 4, 8, 0, 0, 0, Pack(argc));
    HasKept(b2, b3, 8, 12, 0, 0, 0, Pack(argc));
    HasKept(b3, buf[..], 12, 16, 0, 0, 0, Pack(argc));
    HasKept(b2, b3, 8, 12, 0, 0, 4, Pack(arglow + 16));
    HasKept(b3, buf[..], 12, 16, 0, 0, 4, Pack(arglow + 16));
    HasKept(b3, buf[..], 12, 16, 0, 0, 8, Pack(arglow + EnvOffset(argc)));
  }

  lemma HeadKept(b: seq<byte>, b': seq<byte>, arglow: nat, argc: nat, envc: nat, lo: nat, hi: nat, lo2: nat, hi2: nat)
    requires Head(b, arglow, argc, envc) && SameBut(b, b', lo, hi, lo2, hi2) && 16 <= lo && 16 <= lo2
    ensures Head(b', arglow, argc, envc)
  {
    hide Pack, SameBut, Has;
    HasKept(b, b', lo, hi, lo2, hi2, 0, Pack(argc));
    HasKept(b, b', lo, hi, lo2, hi2, 4, Pack(arglow + 16));
    HasKept(b, b', lo, hi, lo2, hi2, 8, Pack(arglow + EnvOffset(argc)));
    HasKept(b, b', lo, hi, lo2, hi2, 12, Pack(arglow + AuxOffset(argc, envc)));
  }

  /**
   _elf32_load_args up to the copy to user space: it fills a buffer of just the size that _elf32_calc_argsize returns.
   */
  method LoadArgs(buf: array<byte>, arglow: nat, argv: seq<CString>, envp: seq<CString>, auxv: seq<Aux>,
                  phtsize: nat, pht: word -> seq<byte>)
    requires buf.Length == ArgSize(argv, envp, auxv, phtsize) && arglow + buf.Length < 0x1_0000_0000
    requires forall a :: |pht(a)| == phtsize
    modifies buf
    ensures Image(buf[..], arglow, argv, envp, auxv, pht)
  {
    hide Pack, SameBut, Has, Vector, AuxVector, StringsSize, Headers, TableAt, Head;
    var argc, envc, auxc := |argv|, |envp|, |auxv|;
    TableFits(Headers(auxv), phtsize);
    LoadHead(buf, arglow, argc, envc);
    var vecstart, strstart := 16, StringsOffset(argc, envc, auxc);
    ghost var str, b1 := strstart, buf[..];
    vecstart, strstart := LoadVector(buf, arglow, vecstart, strstart, argv);
    ghost var b2, str2 := buf[..], strstart;
    HeadKept(b1, b2, arglow, argc, envc, 16, vecstart, str, strstart);
    ghost var env := vecstart;
    vecstart, strstart := LoadVector(buf, arglow, vecstart, strstart, envp);
    ghost var b3 := buf[..];
    HeadKept(b2, b3, arglow, argc, envc, env, vecstart, str2, strstart);
    WholeVectorKept(b2, b3, arglow, 16, str, argv, env, vecstart, str2, strstart);
    LoadAux(buf, vecstart, strstart, auxv, arglow + strstart, phtsize, pht);
    HeadKept(b3, buf[..], arglow, argc, envc, vecstart, vecstart + 8 * auxc + 4, strstart, buf.Length);
    WholeVectorKept(b3, buf[..], arglow, 16, str, argv, vecstart, vecstart + 8 * auxc + 4, strstart, buf.Length);
    WholeVectorKept(b3, buf[..], arglow, env, str2, envp, vecstart, vecstart + 8 * auxc + 4, strstart, buf.Length);
  }

  lemma TableFits(k: nat, phtsize: nat)
    ensures k * phtsize >= 0 && (k > 0 ==> phtsize <= k * phtsize)
  {
    if k > 0 { Distribute(k - 1, phtsize); }
  }

  lemma WholeVector(str: nat, strs: seq<CString>)
    ensures StringOffset(str, strs, |strs|) == str + StringsSize(strs)
  {
    assert strs[..|strs|] == strs;
  }

  /** A vector and the null pointer behind it stay when what comes later is written. */
  lemma WholeVectorKept(b: seq<byte>, b': seq<byte>, arglow: nat, vec: nat, str: nat, strs: seq<CString>, lo: nat,
                        hi: nat, lo2: nat, hi2: nat)
    requires arglow + |b| <= 0x1_0000_0000 && Vector(b, arglow, vec, str, strs, |strs|)
    requires Has(b, vec + 4 * |strs|, Pack(0))
    requires SameBut(b, b', lo, hi, lo2, hi2)
    requires vec + 4 * |strs| + 4 <= lo && hi <= str && vec + 4 * |strs| + 4 <= lo2 && str + StringsSize(strs) <= lo2
    ensures |b'| == |b| && Vector(b', arglow, vec, str, strs, |strs|) && Has(b', vec + 4 * |strs|, Pack(0))
  {
    hide Pack, SameBut, Has, Vector, StringsSize;
    WholeVector(str, strs);
    VectorKept(b, b', arglow, vec, str, strs, |strs|, lo, hi, lo2, hi2);
    HasKept(b, b', lo, hi, lo2, hi2, vec + 4 * |strs|, Pack(0));
  }

  // What the program reads

  /** The word at a user address in the image. */
  function UserWord(b: seq<byte>, arglow: nat, address: nat): word
    requires arglow <= address && address + 4 <= arglow + |b|
  {
    Unpack(b[address - arglow..address - arglow + 4])
  }

  /** The characters from an offset up to a NUL. */
  function UpToNul(b: seq<byte>, offset: nat): seq<byte>
    requires offset <= |b|
    decreases |b| - offset
  {
    if offset == |b| || b[offset] == 0 then [] else [b[offset]] + UpToNul(b, offset + 1)
  }

  function UserString(b: seq<byte>, arglow: nat, address: nat): seq<byte>
    requires arglow <= address <= arglow + |b|
  {
    UpToNul(b, address - arglow)
  }

  lemma WordRead(b: seq<byte>, arglow: nat, offset: nat, w: word)
    requires Has(b, offset, Pack(w))
    ensures offset + 4 <= |b| && UserWord(b, arglow, arglow + offset) == w
  {
    UnpackPack(w);
  }

  lemma {:induction false} StringRead(b: seq<byte>, offset: nat, s: CString)
    requires Has(b, offset, s + [0])
    ensures UpToNul(b, offset) == s
    decreases |s|
  {
    var t := b[offset..offset + |s| + 1];
    assert t[0] == b[offset];
    if s != [] {
      assert b[offset + 1..offset + 1 + |s|] == t[1..];
      assert (s + [0])[1..] == s[1..] + [0];
      StringRead(b, offset + 1, s[1..]);
    }
  }

  /** Following the pointers of a vector gives the strings, and then a null pointer. */
  ghost predicate ReadsAs(b: seq<byte>, arglow: nat, vector: nat, strs: seq<CString>)
  {
    && arglow <= vector && vector + 4 * |strs| + 4 <= arglow + |b|
    && UserWord(b, arglow, vector + 4 * |strs|) == 0
    && (forall k: nat :: k < |strs| ==> arglow <= UserWord(b, arglow, vector + 4 * k) <= arglow + |b|)
    && (forall k: nat :: k < |strs| ==> UserString(b, arglow, UserWord(b, arglow, vector + 4 * k)) == strs[k])
  }

  lemma VectorReads(b: seq<byte>, arglow: nat, vec: nat, str: nat, strs: seq<CString>)
    requires arglow + |b| < 0x1_0000_0000 && Vector(b, arglow, vec, str, strs, |strs|)
    requires Has(b, vec + 4 * |strs|, Pack(0))
    ensures ReadsAs(b, arglow, arglow + vec, strs)
  {
    hide Has, Pack, StringsSize, UserWord, UpToNul;
    WordRead(b, arglow, vec + 4 * |strs|, 0);
    forall k: nat | k < |strs|
      ensures arglow <= UserWord(b, arglow, arglow + vec + 4 * k) <= arglow + |b|
      ensures UserString(b, arglow, UserWord(b, arglow, arglow + vec + 4 * k)) == strs[k]
    {
      var offset := StringOffset(str, strs, k);
      WordRead(b, arglow, vec + 4 * k, arglow + offset);
      StringRead(b, offset, strs[k]);
    }
  }

  /** The program finds argc, argv and envp as they were given. */
  lemma ArgumentsRead(b: seq<byte>, arglow: nat, argv: seq<CString>, envp: seq<CString>, auxv: seq<Aux>,
                      pht: word -> seq<byte>)
    requires arglow + |b| < 0x1_0000_0000 && Image(b, arglow, argv, envp, auxv, pht)
    ensures 16 <= |b| && UserWord(b, arglow, arglow) == |argv|
    ensures ReadsAs(b, arglow, UserWord(b, arglow, arglow + 4), argv)
    ensures ReadsAs(b, arglow, UserWord(b, arglow, arglow + 8), envp)
  {
    hide Has, Pack, StringsSize, UserWord, UpToNul, Vector, AuxVector, TableAt, ReadsAs;
    WordRead(b, arglow, 0, |argv|);
    WordRead(b, arglow, 4, arglow + 16);
    WordRead(b, arglow, 8, arglow + EnvOffset(|argv|));
    WordRead(b, arglow, 12, arglow + AuxOffset(|argv|, |envp|));
    var str := StringsOffset(|argv|, |envp|, |auxv|);
    VectorReads(b, arglow, 16, str, argv);
    VectorReads(b, arglow, EnvOffset(|argv|), str + StringsSize(argv), envp);
  }

  lemma EntryAt(b: seq<byte>, vec: nat, auxv: seq<Aux>, k: nat, address: word)
    requires k < |auxv| && AuxVector(b, vec, auxv, |auxv|, address)
    ensures Has(b, vec + 8 * k, AuxBytes(Relocated(auxv[k], address)))
  {
  }

  lemma AuxWords(b: seq<byte>, arglow: nat, offset: nat, a: Aux)
    requires Has(b, offset, AuxBytes(a))
    ensures offset + 8 <= |b| && UserWord(b, arglow, arglow + offset) == a.atype
    ensures UserWord(b, arglow, arglow + offset + 4) == a.value
  {
    hide Pack, Unpack;
    var s := b[offset..offset + 8];
    assert s[..4] == Pack(a.atype) && s[4..] == Pack(a.value);
    assert b[offset..offset + 4] == s[..4] && b[offset + 4..offset + 8] == s[4..];
    UnpackPack(a.atype);
    UnpackPack(a.value);
  }

  /**
   The entry reads as a, except that AT_PHDR points into the image, to the table that the last such entry pointed to.
   */
  ghost predicate EntryReads(b: seq<byte>, arglow: nat, entry: nat, a: Aux, auxv: seq<Aux>, pht: word -> seq<byte>)
  {
    && arglow <= entry && entry + 8 <= arglow + |b|
    && UserWord(b, arglow, entry) == a.atype
    && (a.atype != AT_PHDR ==> UserWord(b, arglow, entry + 4) == a.value)
    && (a.atype == AT_PHDR ==> UserWord(b, arglow, entry + 4) >= arglow)
    && (a.atype == AT_PHDR ==> TableAt(b, UserWord(b, arglow, entry + 4) - arglow, auxv, pht))
  }

  /** The program finds the auxiliary vector. */
  lemma AuxRead(b: seq<byte>, arglow: nat, argv: seq<CString>, envp: seq<CString>, auxv: seq<Aux>,
                pht: word -> seq<byte>, k: nat)
    requires arglow + |b| < 0x1_0000_0000 && Image(b, arglow, argv, envp, auxv, pht) && k < |auxv|
    ensures 16 <= |b| && EntryReads(b, arglow, UserWord(b, arglow, arglow + 12) + 8 * k, auxv[k], auxv, pht)
  {
    hide Has, Pack, StringsSize, UserWord, Vector, LastHeader, AuxBytes, AuxVector, TableAt;
    var str := StringsOffset(|argv|, |envp|, |auxv|);
    var table, vec := str + StringsSize(argv) + StringsSize(envp), AuxOffset(|argv|, |envp|);
    WordRead(b, arglow, 12, arglow + vec);
    EntryAt(b, vec, auxv, k, arglow + table);
    AuxWords(b, arglow, vec + 8 * k, Relocated(auxv[k], arglow + table));
  }

  /** With one AT_PHDR, that is its own table. */
  lemma {:induction false} OnlyHeader(auxv: seq<Aux>, k: nat)
    requires Headers(auxv) == 1 && k < |auxv| && auxv[k].atype == AT_PHDR
    ensures LastHeader(auxv) == [auxv[k].value]
    decreases |auxv|
  {
    var n := |auxv| - 1;
    if auxv[n].atype == AT_PHDR {
      if k < n { HeadersGrow(auxv[..n], k); }
    } else {
      OnlyHeader(auxv[..n], k);
    }
  }
}
