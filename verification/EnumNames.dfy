/** The name table of an enum: raw stringized declarations, trimmed in place in a packed buffer, and
    the lookups between names and values. */
module EnumNames {

  datatype Option<+T> = None | Some(value: T)

  // ----- C strings -----

  const NUL: char := '\0'

  /** A C string's characters, with its terminator. */
  function CharAt(s: string, i: nat): char {
    if i < |s| then s[i] else NUL
  }

  ghost predicate NoNul(s: string) {
    forall i :: 0 <= i < |s| ==> s[i] != NUL
  }

  /** The C string that starts at a position of a buffer. */
  function CString(buffer: seq<char>, p: nat): string
    decreases |buffer| - p
  {
    if p >= |buffer| || buffer[p] == NUL then "" else [buffer[p]] + CString(buffer, p + 1)
  }

  lemma {:induction false} CStringReads(buffer: seq<char>, p: nat, s: string)
    requires p + |s| < |buffer| && buffer[p..p + |s|] == s && buffer[p + |s|] == NUL && NoNul(s)
    ensures CString(buffer, p) == s
    decreases |s|
  {
    if s != "" {
      assert buffer[p] == s[0];
      assert buffer[p + 1..p + 1 + |s[1..]|] == s[1..];
      CStringReads(buffer, p + 1, s[1..]);
    }
  }

  // ----- the string routines -----

  const NAME_ENDERS: string := "= \t\n"

  function EndsName(c: char, index: nat): bool
    requires index <= |NAME_ENDERS|
    decreases |NAME_ENDERS| - index
  {
    if c == CharAt(NAME_ENDERS, index) then true
    else if index >= |NAME_ENDERS| then false
    else EndsName(c, index + 1)
  }

  /** A name ends at one of the four characters or at the end of the string. */
  lemma {:induction false} EndsNameIff(c: char)
    ensures EndsName(c, 0) <==> c in NAME_ENDERS || c == NUL
    ensures EndsName(c, 0) <==> c == '=' || c == ' ' || c == '\t' || c == '\n' || c == '\0'
  {
    assert NAME_ENDERS == ['=', ' ', '\t', '\n'];
    assert EndsName(c, 4) <==> c == NUL;
    assert EndsName(c, 3) <==> c == '\n' || c == NUL;
    assert EndsName(c, 2) <==> c == '\t' || c == '\n' || c == NUL;
    assert EndsName(c, 1) <==> c == ' ' || c == '\t' || c == '\n' || c == NUL;
  }

  /** strcspn with the enders. */
  function NameLength(s: string): (n: nat)
    ensures n <= |s|
    ensures forall i :: 0 <= i < n ==> s[i] !in NAME_ENDERS
    ensures n < |s| ==> s[n] in NAME_ENDERS
  {
    if s == "" || s[0] in NAME_ENDERS then 0 else 1 + NameLength(s[1..])
  }

  function Trim(s: string): string {
    s[..NameLength(s)]
  }

  /** The part of a declaration before the first equals sign, space, tab or newline, or all of it. */
  lemma {:induction false} TrimIsName(s: string)
    ensures Trim(s) <= s
    ensures forall i :: 0 <= i < |Trim(s)| ==> s[i] != '=' && s[i] != ' ' && s[i] != '\t' && s[i] != '\n'
    ensures |Trim(s)| < |s| ==> var c := s[|Trim(s)|]; c == '=' || c == ' ' || c == '\t' || c == '\n'
  {
    assert NAME_ENDERS == ['=', ' ', '\t', '\n'];
    assert forall c :: c in NAME_ENDERS <==> c == '=' || c == ' ' || c == '\t' || c == '\n';
  }

  function ToLower(c: char): char {
    if 'A' <= c <= 'Z' then c - 'A' + 'a' else c
  }

  function Lower(s: string): (r: string)
    ensures |r| == |s| && forall i :: 0 <= i < |s| ==> r[i] == ToLower(s[i])
  {
    if s == "" then "" else Lower(s[..|s| - 1]) + [ToLower(s[|s| - 1])]
  }

  /** Two characters are the same in lower case exactly when they are equal or the two cases of one ASCII
      letter. */
  lemma {:induction false} SameLetter(c: char, d: char)
    ensures ToLower(c) == ToLower(d) <==>
      || c == d
      || ('A' <= c <= 'Z' && d as int == c as int + 32)
      || ('A' <= d <= 'Z' && c as int == d as int + 32)
  {
  }

  function NamesMatch(stringized: string, reference: string, index: nat): bool
    requires index <= |stringized| && index <= |reference|
    decreases |stringized| - index
  {
    if EndsName(CharAt(stringized, index), 0) then index == |reference|
    else if index == |reference| then false
    else if index < |stringized| && stringized[index] == reference[index] then
      NamesMatch(stringized, reference, index + 1)
    else false
  }

  function NamesMatchNocase(stringized: string, reference: string, index: nat): bool
    requires index <= |stringized| && index <= |reference|
    decreases |stringized| - index
  {
    if EndsName(CharAt(stringized, index), 0) then index == |reference|
    else if index == |reference| then false
    else if index < |stringized| && ToLower(stringized[index]) == ToLower(reference[index]) then
      NamesMatchNocase(stringized, reference, index + 1)
    else false
  }

  lemma {:induction false} EndsAtLength(s: string, i: nat)
    requires NoNul(s) && i <= NameLength(s)
    ensures EndsName(CharAt(s, i), 0) <==> i == NameLength(s)
  {
    EndsNameIff(CharAt(s, i));
  }

  lemma {:induction false} MatchFrom(s: string, r: string, i: nat)
    requires NoNul(s) && i <= NameLength(s) && i <= |r| && s[..i] == r[..i]
    ensures NamesMatch(s, r, i) <==> Trim(s) == r
    decreases |s| - i
  {
    EndsAtLength(s, i);
    if i < NameLength(s) && i < |r| {
      if s[i] == r[i] {
        assert s[..i + 1] == s[..i] + [s[i]] && r[..i + 1] == r[..i] + [r[i]];
        MatchFrom(s, r, i + 1);
      } else {
        assert Trim(s)[i] == s[i];
      }
    } else if i == NameLength(s) && i == |r| {
      assert r[..i] == r;
    }
  }

  /** A raw name matches a reference exactly when the reference is the trimmed name. */
  lemma {:induction false} MatchIffTrimmed(s: string, r: string)
    requires NoNul(s)
    ensures NamesMatch(s, r, 0) <==> Trim(s) == r
  {
    MatchFrom(s, r, 0);
  }

  lemma {:induction false} NocaseFrom(s: string, r: string, i: nat)
    requires NoNul(s) && i <= NameLength(s) && i <= |r| && Lower(Trim(s))[..i] == Lower(r)[..i]
    ensures NamesMatchNocase(s, r, i) <==> Lower(Trim(s)) == Lower(r)
    decreases |s| - i
  {
    EndsAtLength(s, i);
    var a, b := Lower(Trim(s)), Lower(r);
    if i < NameLength(s) && i < |r| {
      assert a[i] == ToLower(s[i]) && b[i] == ToLower(r[i]);
      if a[i] == b[i] {
        assert a[..i + 1] == a[..i] + [a[i]] && b[..i + 1] == b[..i] + [b[i]];
        NocaseFrom(s, r, i + 1);
      }
    } else if i == NameLength(s) && i == |r| {
      assert a[..i] == a && b[..i] == b;
    }
  }

  lemma {:induction false} NocaseIffTrimmed(s: string, r: string)
    requires NoNul(s)
    ensures NamesMatchNocase(s, r, 0) <==> Lower(Trim(s)) == Lower(r)
  {
    NocaseFrom(s, r, 0);
  }

  // ----- the packed buffer -----

  function Offset(raw: seq<string>, i: nat): nat
    requires i <= |raw|
  {
    if i == 0 then 0 else Offset(raw, i - 1) + |raw[i - 1]| + 1
  }

  /** The reserved storage: every raw name followed by a comma. */
  function Packed(raw: seq<string>, n: nat): (buffer: seq<char>)
    requires n <= |raw|
    ensures |buffer| == Offset(raw, n)
  {
    if n == 0 then [] else Packed(raw, n - 1) + raw[n - 1] + [',']
  }

  function Slot(s: string): (slot: seq<char>)
    ensures |slot| == |s| + 1
  {
    (s + [','])[NameLength(s) := NUL]
  }

  lemma {:induction false} SlotHoldsName(s: string)
    ensures Slot(s)[..NameLength(s)] == Trim(s) && Slot(s)[NameLength(s)] == NUL
    ensures NoNul(s) ==> NoNul(Trim(s))
  {
  }

  /** The storage with the first n slots cut. */
  function Slots(raw: seq<string>, n: nat): (buffer: seq<char>)
    requires n <= |raw|
    ensures |buffer| == Offset(raw, n)
  {
    if n == 0 then [] else Slots(raw, n - 1) + Slot(raw[n - 1])
  }

  lemma {:induction false} SliceOfJoin(a: seq<char>, b: seq<char>, lo: nat, hi: nat)
    requires lo <= hi <= |a|
    ensures (a + b)[lo..hi] == a[lo..hi]
    ensures (a + b)[|a|..|a| + |b|] == b
  {
    assert (a + b)[..|a|] == a;
  }

  lemma {:induction false} SliceOfTake(a: seq<char>, n: nat, lo: nat, hi: nat)
    requires lo <= hi <= n <= |a|
    ensures a[..n][lo..hi] == a[lo..hi]
  {
  }

  lemma {:induction false} PackedSlice(raw: seq<string>, i: nat, n: nat)
    requires i < n <= |raw|
    ensures Offset(raw, i + 1) <= Offset(raw, n)
    ensures Packed(raw, n)[Offset(raw, i)..Offset(raw, i + 1)] == raw[i] + [',']
  {
    var last := raw[n - 1] + [','];
    assert Packed(raw, n) == Packed(raw, n - 1) + last;
    if i + 1 < n {
      PackedSlice(raw, i, n - 1);
      SliceOfJoin(Packed(raw, n - 1), last, Offset(raw, i), Offset(raw, i + 1));
    } else {
      SliceOfJoin(Packed(raw, n - 1), last, 0, 0);
    }
  }

  lemma {:induction false} SlotsSlice(raw: seq<string>, i: nat, n: nat)
    requires i < n <= |raw|
    ensures Offset(raw, i + 1) <= Offset(raw, n)
    ensures Slots(raw, n)[Offset(raw, i)..Offset(raw, i + 1)] == Slot(raw[i])
  {
    if i + 1 < n {
      SlotsSlice(raw, i, n - 1);
      SliceOfJoin(Slots(raw, n - 1), Slot(raw[n - 1]), Offset(raw, i), Offset(raw, i + 1));
    } else {
      SliceOfJoin(Slots(raw, n - 1), Slot(raw[n - 1]), 0, 0);
    }
  }

  ghost predicate AllNoNul(raw: seq<string>) {
    forall i :: 0 <= i < |raw| ==> NoNul(raw[i])
  }

  lemma {:induction false} ReadSlot(buffer: seq<char>, p: nat, slot: seq<char>)
    requires p + |slot| <= |buffer| && buffer[p..p + |slot|] == slot
    ensures forall k :: 0 <= k <= |slot| ==> buffer[p..p + k] == slot[..k]
    ensures forall k :: 0 <= k < |slot| ==> buffer[p + k] == slot[k]
  {
    forall k | 0 <= k <= |slot| ensures buffer[p..p + k] == slot[..k] {
      assert buffer[p..p + |slot|][..k] == buffer[p..p + k];
    }
    forall k | 0 <= k < |slot| ensures buffer[p + k] == slot[k] {
      assert buffer[p..p + |slot|][k] == buffer[p + k];
    }
  }

  /** Read back from the buffer, every name is its raw name cut at the first ender. */
  lemma {:induction false} SlotReadsTrimmed(raw: seq<string>, buffer: seq<char>, i: nat)
    requires i < |raw| && AllNoNul(raw)
    requires Offset(raw, |raw|) <= |buffer| && buffer[..Offset(raw, |raw|)] == Slots(raw, |raw|)
    ensures CString(buffer, Offset(raw, i)) == Trim(raw[i])
  {
    var p, s := Offset(raw, i), raw[i];
    SlotsSlice(raw, i, |raw|);
    SliceOfTake(buffer, Offset(raw, |raw|), p, p + |s| + 1);
    ReadSlot(buffer, p, Slot(s));
    SlotHoldsName(s);
    CStringReads(buffer, p, Trim(s));
  }

  /** The storage after a number of names: their slots are cut, everything behind them is untouched. */
  ghost predicate CutUpTo(raw: seq<string>, was: seq<char>, now: seq<char>, n: nat)
    requires n <= |raw|
  {
    && |now| == |was| && Offset(raw, n) <= |now|
    && now[..Offset(raw, n)] == Slots(raw, n)
    && now[Offset(raw, n)..] == was[Offset(raw, n)..]
  }

  lemma {:induction false} CutSlot(was: seq<char>, now: seq<char>, offset: nat, s: string, done: seq<char>)
    requires |now| == |was| && offset + |s| + 1 <= |was| && was[offset..offset + |s| + 1] == s + [',']
    requires now[..offset] == done && now[offset..] == was[offset..]
    ensures now[offset + NameLength(s) := NUL][..offset + |s| + 1] == done + Slot(s)
    ensures now[offset + NameLength(s) := NUL][offset + |s| + 1..] == was[offset + |s| + 1..]
  {
    var after, next := now[offset + NameLength(s) := NUL], offset + |s| + 1;
    var slot := now[offset..][..|s| + 1];
    assert slot == was[offset..][..|s| + 1] == was[offset..next];
    assert after[..offset] == done;
    assert after[offset..next] == slot[NameLength(s) := NUL];
    assert after[..next] == after[..offset] + after[offset..next];
    assert after[next..] == now[offset..][|s| + 1..] == was[offset..][|s| + 1..];
  }

  lemma {:induction false} TrimStep(raw: seq<string>, was: seq<char>, now: seq<char>, n: nat)
    requires n < |raw| && Offset(raw, |raw|) <= |was| && was[..Offset(raw, |raw|)] == Packed(raw, |raw|)
    requires CutUpTo(raw, was, now, n)
    ensures Offset(raw, n) + NameLength(raw[n]) < |now|
    ensures CutUpTo(raw, was, now[Offset(raw, n) + NameLength(raw[n]) := NUL], n + 1)
  {
    var offset, next := Offset(raw, n), Offset(raw, n + 1);
    PackedSlice(raw, n, |raw|);
    SliceOfTake(was, Offset(raw, |raw|), offset, next);
    CutSlot(was, now, offset, raw[n], Slots(raw, n));
  }

  /** _trim_names: cuts every slot of the packed storage and records where it starts; nothing else in
      the storage changes. */
  method TrimNames(raw: seq<string>, trimmed: array<nat>, storage: array<char>)
    requires trimmed.Length == |raw| && Offset(raw, |raw|) <= storage.Length
    requires storage[..Offset(raw, |raw|)] == Packed(raw, |raw|)
    modifies trimmed, storage
    ensures forall i :: 0 <= i < |raw| ==> trimmed[i] == Offset(raw, i)
    ensures storage[..Offset(raw, |raw|)] == Slots(raw, |raw|)
    ensures storage[Offset(raw, |raw|)..] == old(storage[Offset(raw, |raw|)..])
  {
    ghost var was := storage[..];
    assert was[..Offset(raw, |raw|)] == storage[..Offset(raw, |raw|)];
    var offset := 0;
    var index := 0;
    while index < |raw|
      invariant 0 <= index <= |raw| && offset == Offset(raw, index)
      invariant forall i {:trigger trimmed[i]} :: 0 <= i < index ==> trimmed[i] == Offset(raw, i)
      invariant CutUpTo(raw, was, storage[..], index)
    {
      ghost var now := storage[..];
      TrimStep(raw, was, now, index);
      trimmed[index] := offset;
      var trimmedLength := NameLength(raw[index]);
      storage[offset + trimmedLength] := NUL;
      assert storage[..] == now[offset + trimmedLength := NUL];
      var rawLength := |raw[index]|;
      offset := offset + (rawLength + 1);
      index := index + 1;
    }
    assert storage[..][..offset] == storage[..offset] && storage[..][offset..] == storage[offset..];
  }

  // ----- the lookups -----

  function FromValueLoop(values: seq<int>, value: int, index: nat): (r: Option<nat>)
    requires index <= |values|
    ensures r.Some? ==> index <= r.value < |values| && values[r.value] == value
    ensures r.Some? ==> forall j :: index <= j < r.value ==> values[j] != value
    ensures r.None? ==> forall j :: index <= j < |values| ==> values[j] != value
    decreases |values| - index
  {
    if index == |values| then None
    else if values[index] == value then Some(index)
    else FromValueLoop(values, value, index + 1)
  }

  function FromStringLoop(raw: seq<string>, name: string, index: nat): (r: Option<nat>)
    requires index <= |raw|
    ensures r.Some? ==> index <= r.value < |raw| && NamesMatch(raw[r.value], name, 0)
    ensures r.Some? ==> forall j :: index <= j < r.value ==> !NamesMatch(raw[j], name, 0)
    ensures r.None? ==> forall j :: index <= j < |raw| ==> !NamesMatch(raw[j], name, 0)
    decreases |raw| - index
  {
    if index == |raw| then None
    else if NamesMatch(raw[index], name, 0) then Some(index)
    else FromStringLoop(raw, name, index + 1)
  }

  function FromStringNocaseLoop(raw: seq<string>, name: string, index: nat): (r: Option<nat>)
    requires index <= |raw|
    ensures r.Some? ==> index <= r.value < |raw| && NamesMatchNocase(raw[r.value], name, 0)
    ensures r.Some? ==> forall j :: index <= j < r.value ==> !NamesMatchNocase(raw[j], name, 0)
    ensures r.None? ==> forall j :: index <= j < |raw| ==> !NamesMatchNocase(raw[j], name, 0)
    decreases |raw| - index
  {
    if index == |raw| then None
    else if NamesMatchNocase(raw[index], name, 0) then Some(index)
    else FromStringNocaseLoop(raw, name, index + 1)
  }

  function MapIndex<T>(table: seq<T>, index: Option<nat>): Option<T>
    requires index.Some? ==> index.value < |table|
  {
    if index.Some? then Some(table[index.value]) else None
  }

  /** What _to_string returns, in terms of the declaration. */
  function NameOf(raw: seq<string>, values: seq<int>, value: int): Option<string>
    requires |raw| == |values|
  {
    var index := FromValueLoop(values, value, 0);
    if index.Some? then Some(Trim(raw[index.value])) else None
  }

  function ValueOf(raw: seq<string>, values: seq<int>, name: string): Option<int>
    requires |raw| == |values|
  {
    MapIndex(values, FromStringLoop(raw, name, 0))
  }

  function ValueOfNocase(raw: seq<string>, values: seq<int>, name: string): Option<int>
    requires |raw| == |values|
  {
    MapIndex(values, FromStringNocaseLoop(raw, name, 0))
  }

  ghost predicate DistinctNames(raw: seq<string>) {
    forall i, j :: 0 <= i < j < |raw| ==> Trim(raw[i]) != Trim(raw[j])
  }

  ghost predicate DistinctLower(raw: seq<string>) {
    forall i, j :: 0 <= i < j < |raw| ==> Lower(Trim(raw[i])) != Lower(Trim(raw[j]))
  }

  lemma {:induction false} FindsOwnName(raw: seq<string>, i: nat)
    requires i < |raw| && AllNoNul(raw) && DistinctNames(raw)
    ensures FromStringLoop(raw, Trim(raw[i]), 0) == Some(i)
  {
    var r := FromStringLoop(raw, Trim(raw[i]), 0);
    MatchIffTrimmed(raw[i], Trim(raw[i]));
    if r.Some? { MatchIffTrimmed(raw[r.value], Trim(raw[i])); }
  }

  lemma {:induction false} FindsCaseVariant(raw: seq<string>, i: nat, name: string)
    requires i < |raw| && AllNoNul(raw) && DistinctLower(raw) && Lower(name) == Lower(Trim(raw[i]))
    ensures FromStringNocaseLoop(raw, name, 0) == Some(i)
  {
    var r := FromStringNocaseLoop(raw, name, 0);
    NocaseIffTrimmed(raw[i], name);
    if r.Some? { NocaseIffTrimmed(raw[r.value], name); }
  }

  /** Every declared value has a name, and the name parses back to the value, even when several
      constants share it. */
  lemma {:induction false} ValueRoundTrip(raw: seq<string>, values: seq<int>, v: int)
    requires |raw| == |values| && AllNoNul(raw) && DistinctNames(raw) && v in values
    ensures NameOf(raw, values, v).Some?
    ensures ValueOf(raw, values, NameOf(raw, values, v).value) == Some(v)
  {
    var index := FromValueLoop(values, v, 0);
    var i :| 0 <= i < |values| && values[i] == v;
    FindsOwnName(raw, index.value);
  }

  /** So does every ASCII case variant, if the names stay distinct in lower case. */
  lemma {:induction false} CaseRoundTrip(raw: seq<string>, values: seq<int>, v: int, name: string)
    requires |raw| == |values| && AllNoNul(raw) && DistinctLower(raw) && v in values
    ensures NameOf(raw, values, v).Some?
    ensures Lower(name) == Lower(NameOf(raw, values, v).value) ==> ValueOfNocase(raw, values, name) == Some(v)
  {
    var index := FromValueLoop(values, v, 0);
    var i :| 0 <= i < |values| && values[i] == v;
    if Lower(name) == Lower(Trim(raw[index.value])) {
      FindsCaseVariant(raw, index.value, name);
    }
  }

  /** The other way round a name comes back exactly when its constant is the first with its value. */
  lemma {:induction false} NameRoundTrip(raw: seq<string>, values: seq<int>, i: nat)
    requires |raw| == |values| && i < |raw| && AllNoNul(raw) && DistinctNames(raw)
    ensures ValueOf(raw, values, Trim(raw[i])) == Some(values[i])
    ensures NameOf(raw, values, values[i]) == Some(Trim(raw[i])) <==> forall j :: 0 <= j < i ==> values[j] != values[i]
  {
    FindsOwnName(raw, i);
    var index := FromValueLoop(values, values[i], 0);
    assert index.Some? && index.value <= i;
  }

  /** Only declared names parse. */
  lemma {:induction false} UnknownNames(raw: seq<string>, values: seq<int>, name: string)
    requires |raw| == |values| && AllNoNul(raw)
    ensures ValueOf(raw, values, name) == None <==> forall i :: 0 <= i < |raw| ==> Trim(raw[i]) != name
  {
    var r := FromStringLoop(raw, name, 0);
    forall i | 0 <= i < |raw| ensures NamesMatch(raw[i], name, 0) <==> Trim(raw[i]) == name {
      MatchIffTrimmed(raw[i], name);
    }
  }

  /** A string parses to the value of the first constant with that name. */
  lemma {:induction false} ParsesToFirst(raw: seq<string>, values: seq<int>, i: nat)
    requires |raw| == |values| && i < |raw| && AllNoNul(raw)
    requires forall j :: 0 <= j < i ==> Trim(raw[j]) != Trim(raw[i])
    ensures ValueOf(raw, values, Trim(raw[i])) == Some(values[i])
  {
    var name := Trim(raw[i]);
    var r := FromStringLoop(raw, name, 0);
    MatchIffTrimmed(raw[i], name);
    if r.Some? { MatchIffTrimmed(raw[r.value], name); }
  }

  /** So does any string, up to ASCII case. */
  lemma {:induction false} ParsesToFirstNocase(raw: seq<string>, values: seq<int>, name: string, i: nat)
    requires |raw| == |values| && i < |raw| && AllNoNul(raw) && Lower(Trim(raw[i])) == Lower(name)
    requires forall j :: 0 <= j < i ==> Lower(Trim(raw[j])) != Lower(name)
    ensures ValueOfNocase(raw, values, name) == Some(values[i])
  {
    var r := FromStringNocaseLoop(raw, name, 0);
    NocaseIffTrimmed(raw[i], name);
    assert r.Some? && r.value <= i;
    NocaseIffTrimmed(raw[r.value], name);
  }

  /** And one that is no declared name in any case does not parse. */
  lemma {:induction false} UnknownNamesNocase(raw: seq<string>, values: seq<int>, name: string)
    requires |raw| == |values| && AllNoNul(raw)
    ensures ValueOfNocase(raw, values, name) == None
       <==> forall i :: 0 <= i < |raw| ==> Lower(Trim(raw[i])) != Lower(name)
  {
    var r := FromStringNocaseLoop(raw, name, 0);
    forall i | 0 <= i < |raw| ensures NamesMatchNocase(raw[i], name, 0) <==> Lower(Trim(raw[i])) == Lower(name) {
      NocaseIffTrimmed(raw[i], name);
    }
  }

  /** A value has the name of the first constant with it, and none if there is no such constant. */
  lemma {:induction false} NamedByFirst(raw: seq<string>, values: seq<int>, value: int)
    requires |raw| == |values|
    ensures NameOf(raw, values, value) == None <==> value !in values
    ensures forall i :: 0 <= i < |raw| && values[i] == value && (forall j :: 0 <= j < i ==> values[j] != value)
                        ==> NameOf(raw, values, value) == Some(Trim(raw[i]))
  {
    var r := FromValueLoop(values, value, 0);
  }

  // ----- the table object -----

  /** The static data of one enum. */
  class NameTable {
    const raw: seq<string>
    const values: seq<int>
    const storage: array<char>
    const nameArray: array<nat>
    var initialized: bool

    ghost predicate Valid()
      reads this, storage, nameArray
    {
      && |raw| == |values| == nameArray.Length && AllNoNul(raw)
      && storage.Length == Offset(raw, |raw|) + 1 && storage[Offset(raw, |raw|)] == NUL
      && storage[..Offset(raw, |raw|)] == (if initialized then Slots(raw, |raw|) else Packed(raw, |raw|))
      && (initialized ==> forall i :: 0 <= i < |raw| ==> nameArray[i] == Offset(raw, i))
    }

    constructor (raw: seq<string>, values: seq<int>)
      requires |raw| == |values| && AllNoNul(raw)
      ensures Valid() && this.raw == raw && this.values == values && !initialized
      ensures fresh(storage) && fresh(nameArray)
    {
      this.raw, this.values := raw, values;
      var packed := Packed(raw, |raw|) + [NUL];
      var buffer := new char[|packed|](i requires 0 <= i < |packed| => packed[i]);
      storage := buffer;
      nameArray := new nat[|raw|](_ => 0);
      initialized := false;
      new;
      assert storage[..Offset(raw, |raw|)] == Packed(raw, |raw|);
    }

    /** Trims the names once. */
    method Initialize()
      requires Valid()
      modifies this`initialized, storage, nameArray
      ensures Valid() && initialized
      ensures old(initialized) ==> storage[..] == old(storage[..])
    {
      if initialized {
        return;
      }
      ghost var n := Offset(raw, |raw|);
      TrimNames(raw, nameArray, storage);
      assert storage[n..][0] == old(storage[n..])[0];
      initialized := true;
    }

    /** _to_string reads the trimmed buffer, not the raw names. */
    method ToString(value: int) returns (name: Option<string>)
      requires Valid()
      modifies this`initialized, storage, nameArray
      ensures Valid() && initialized
      ensures name == NameOf(raw, values, value)
    {
      Initialize();
      var index := FromValueLoop(values, value, 0);
      if index.None? {
        return None;
      }
      var buffer := storage[..];
      assert buffer[..Offset(raw, |raw|)] == storage[..Offset(raw, |raw|)];
      SlotReadsTrimmed(raw, buffer, index.value);
      name := Some(CString(buffer, nameArray[index.value]));
    }

    method FromString(name: string) returns (value: Option<int>)
      requires Valid()
      ensures value == ValueOf(raw, values, name)
    {
      value := MapIndex(values, FromStringLoop(raw, name, 0));
    }

    method FromStringNocase(name: string) returns (value: Option<int>)
      requires Valid()
      ensures value == ValueOfNocase(raw, values, name)
    {
      value := MapIndex(values, FromStringNocaseLoop(raw, name, 0));
    }
  }
}
