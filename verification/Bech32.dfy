/** Bech32 (BIP 173). Strings are byte strings, symbols are bytes below 32. */
module Bech32 {

  // ---------------------------------------------------------------- the checksum

  /** One turn of PolyMod: the next symbol enters, and what leaves at the top is reduced. */
  function Step(c: bv32, v: bv8): bv32 {
    var c0 := Top(c);
    Xor(Xor(Xor(Xor(Xor(Shifted(c, v), Chosen(c0, 1, 0x3b6a57b2)), Chosen(c0, 2, 0x26508e6d)),
                Chosen(c0, 4, 0x1ea119fa)), Chosen(c0, 8, 0x3d4233dd)), Chosen(c0, 16, 0x2a1462b3))
  }

  function Xor(a: bv32, b: bv32): bv32 { a ^ b }

  function XorByte(a: bv8, b: bv8): bv8 { a ^ b }

  function Top(c: bv32): bv32 { c >> 25 }

  function Shifted(c: bv32, v: bv8): bv32 { ((c & 0x1ff_ffff) << 5) ^ (v as bv32) }

  /** The multiple of the generator for one of the five bits that left. */
  function Chosen(c0: bv32, bit: bv32, k: bv32): bv32 { if HasBit(c0, bit) then k else 0 }

  predicate HasBit(c0: bv32, bit: bv32) { c0 & bit != 0 }

  function Run(c: bv32, v: seq<bv8>): bv32 {
    if v == [] then c else Step(Run(c, v[..|v| - 1]), v[|v| - 1])
  }

  ghost predicate Symbols(v: seq<bv8>) {
    forall i :: 0 <= i < |v| ==> v[i] < 32
  }

  /** PolyMod is the run from 1. */
  method PolyMod(v: seq<bv8>) returns (c: bv32)
    ensures c == Run(1, v)
  {
    c := 1;
    for i := 0 to |v|
      invariant c == Run(1, v[..i])
    {
      assert v[..i + 1][..i] == v[..i];
      c := Turn(c, v[i]);
    }
    assert v[..|v|] == v;
  }

  /** The body of PolyMod's loop. */
  method Turn(c: bv32, v: bv8) returns (r: bv32)
    ensures r == Step(c, v)
  {
    hide Xor, Chosen, Top, Shifted, HasBit;
    var c0 := Top(c);
    r := Shifted(c, v);
    r := Apply(r, c0, 1, 0x3b6a57b2);
    r := Apply(r, c0, 2, 0x26508e6d);
    r := Apply(r, c0, 4, 0x1ea119fa);
    r := Apply(r, c0, 8, 0x3d4233dd);
    r := Apply(r, c0, 16, 0x2a1462b3);
  }

  /** One conditional exclusive-or of that body. */
  method Apply(c: bv32, c0: bv32, bit: bv32, k: bv32) returns (r: bv32)
    ensures r == Xor(c, Chosen(c0, bit, k))
  {
    r := c;
    if HasBit(c0, bit) {
      r := Xor(r, k);
    }
  }

  // ---------------------------------------------------------------- linearity

  lemma XorCommutes(a: bv32, b: bv32)
    ensures Xor(a, b) == Xor(b, a)
  {
  }

  lemma XorAssociates(a: bv32, b: bv32, c: bv32)
    ensures Xor(Xor(a, b), c) == Xor(a, Xor(b, c))
  {
  }

  lemma XorSwap(a: bv32, b: bv32, c: bv32, d: bv32)
    ensures Xor(Xor(a, b), Xor(c, d)) == Xor(Xor(a, c), Xor(b, d))
  {
    hide Xor;
    XorAssociates(a, b, Xor(c, d));
    XorAssociates(b, c, d);
    XorCommutes(b, c);
    XorAssociates(c, b, d);
    XorAssociates(a, c, Xor(b, d));
  }

  lemma ShiftedLinear(c: bv32, d: bv32, v: bv8, w: bv8)
    ensures Shifted(Xor(c, d), XorByte(v, w)) == Xor(Shifted(c, v), Shifted(d, w))
  {
  }

  lemma TopLinear(c: bv32, d: bv32)
    ensures Top(Xor(c, d)) == Xor(Top(c), Top(d))
  {
  }

  lemma ChosenLinear(c: bv32, d: bv32, bit: bv32, k: bv32)
    requires bit == 1 || bit == 2 || bit == 4 || bit == 8 || bit == 16
    ensures Chosen(Xor(c, d), bit, k) == Xor(Chosen(c, bit, k), Chosen(d, bit, k))
  {
    ChosenBits(c, d, bit);
    XorSelf(k);
  }

  lemma XorSelf(k: bv32)
    ensures k ^ k == 0 && k ^ 0 == k && 0 ^ k == k && (0 as bv32) ^ 0 == 0
  {
  }

  lemma ChosenBits(c: bv32, d: bv32, bit: bv32)
    requires bit == 1 || bit == 2 || bit == 4 || bit == 8 || bit == 16
    ensures ((c ^ d) & bit != 0) == ((c & bit != 0) != (d & bit != 0))
  {
  }

  /** One conditional addition of a multiple of the generator is linear. */
  lemma AdditionLinear(x: bv32, y: bv32, c0: bv32, d0: bv32, bit: bv32, k: bv32)
    requires bit == 1 || bit == 2 || bit == 4 || bit == 8 || bit == 16
    ensures Xor(Xor(x, y), Chosen(Xor(c0, d0), bit, k)) == Xor(Xor(x, Chosen(c0, bit, k)), Xor(y, Chosen(d0, bit, k)))
  {
    hide Xor, Chosen;
    ChosenLinear(c0, d0, bit, k);
    XorSwap(x, y, Chosen(c0, bit, k), Chosen(d0, bit, k));
  }

  lemma StepLinear(c: bv32, d: bv32, v: bv8, w: bv8)
    ensures Step(Xor(c, d), XorByte(v, w)) == Xor(Step(c, v), Step(d, w))
  {
    hide Xor, XorByte, Shifted, Chosen, Top;
    ShiftedLinear(c, d, v, w);
    TopLinear(c, d);
    var c0, d0 := Top(c), Top(d);
    var x1, y1 := Xor(Shifted(c, v), Chosen(c0, 1, 0x3b6a57b2)), Xor(Shifted(d, w), Chosen(d0, 1, 0x3b6a57b2));
    var x2, y2 := Xor(x1, Chosen(c0, 2, 0x26508e6d)), Xor(y1, Chosen(d0, 2, 0x26508e6d));
    var x4, y4 := Xor(x2, Chosen(c0, 4, 0x1ea119fa)), Xor(y2, Chosen(d0, 4, 0x1ea119fa));
    var x8, y8 := Xor(x4, Chosen(c0, 8, 0x3d4233dd)), Xor(y4, Chosen(d0, 8, 0x3d4233dd));
    AdditionLinear(Shifted(c, v), Shifted(d, w), c0, d0, 1, 0x3b6a57b2);
    AdditionLinear(x1, y1, c0, d0, 2, 0x26508e6d);
    AdditionLinear(x2, y2, c0, d0, 4, 0x1ea119fa);
    AdditionLinear(x4, y4, c0, d0, 8, 0x3d4233dd);
    AdditionLinear(x8, y8, c0, d0, 16, 0x2a1462b3);
  }

  function XorAll(v: seq<bv8>, w: seq<bv8>): (r: seq<bv8>)
    requires |v| == |w|
    ensures |r| == |v|
  {
    seq(|v|, i requires 0 <= i < |v| => XorByte(v[i], w[i]))
  }

  /** Runs are linear: differences in the start and in the symbols show as the run of the
      differences. */
  lemma {:induction false} RunLinear(c: bv32, d: bv32, v: seq<bv8>, w: seq<bv8>)
    requires |v| == |w|
    ensures Run(Xor(c, d), XorAll(v, w)) == Xor(Run(c, v), Run(d, w))
    decreases |v|
  {
    hide Xor, XorByte, Step;
    if v != [] {
      var last := |v| - 1;
      RunLinear(c, d, v[..last], w[..last]);
      assert XorAll(v, w)[..last] == XorAll(v[..last], w[..last]);
      StepLinear(Run(c, v[..last]), Run(d, w[..last]), v[last], w[last]);
    }
  }

  lemma {:induction false} RunConcat(c: bv32, v: seq<bv8>, w: seq<bv8>)
    ensures Run(c, v + w) == Run(Run(c, v), w)
    decreases |w|
  {
    hide Step;
    if w == [] {
      assert v + w == v;
    } else {
      var last := |w| - 1;
      RunConcat(c, v, w[..last]);
      assert (v + w)[..|v + w| - 1] == v + w[..last];
    }
  }

  lemma StepBound(c: bv32, v: bv8)
    requires c < 0x4000_0000 && v < 32
    ensures Step(c, v) < 0x4000_0000
  {
  }

  lemma {:induction false} RunBound(c: bv32, v: seq<bv8>)
    requires c < 0x4000_0000 && Symbols(v)
    ensures Run(c, v) < 0x4000_0000
    decreases |v|
  {
    hide Step;
    if v != [] {
      RunBound(c, v[..|v| - 1]);
      StepBound(Run(c, v[..|v| - 1]), v[|v| - 1]);
    }
  }

  /** Nothing but zero is turned into zero. */
  lemma StepKernel(c: bv32)
    requires c < 0x4000_0000 && Step(c, 0) == 0
    ensures c == 0
  {
    hide Xor, Chosen, Shifted, Top;
    var c0 := Top(c);
    var a, b, d, e, f := Chosen(c0, 1, 0x3b6a57b2), Chosen(c0, 2, 0x26508e6d), Chosen(c0, 4, 0x1ea119fa),
        Chosen(c0, 8, 0x3d4233dd), Chosen(c0, 16, 0x2a1462b3);
    var s := Shifted(c, 0);
    XorAssociates(Xor(Xor(Xor(s, a), b), d), e, f);
    XorAssociates(Xor(Xor(s, a), b), d, Xor(e, f));
    XorAssociates(Xor(s, a), b, Xor(d, Xor(e, f)));
    XorAssociates(s, a, Xor(b, Xor(d, Xor(e, f))));
    KernelBits(c);
  }

  lemma KernelBits(c: bv32)
    requires c < 0x4000_0000
    requires var c0 := Top(c);
             Xor(Shifted(c, 0), Xor(Chosen(c0, 1, 0x3b6a57b2), Xor(Chosen(c0, 2, 0x26508e6d),
               Xor(Chosen(c0, 4, 0x1ea119fa), Xor(Chosen(c0, 8, 0x3d4233dd), Chosen(c0, 16, 0x2a1462b3)))))) == 0
    ensures c == 0
  {
  }

  function Zeroes(n: nat): (r: seq<bv8>)
    ensures |r| == n
  {
    seq(n, _ => 0)
  }

  lemma StepZero()
    ensures Step(0, 0) == 0
  {
  }

  lemma {:induction false} RunZeroes(c: bv32, n: nat)
    requires c < 0x4000_0000
    ensures Run(c, Zeroes(n)) < 0x4000_0000 && (Run(c, Zeroes(n)) == 0 <==> c == 0)
  {
    hide Step;
    if n > 0 {
      RunZeroes(c, n - 1);
      assert Zeroes(n)[..n - 1] == Zeroes(n - 1);
      var b := Run(c, Zeroes(n - 1));
      StepBound(b, 0);
      StepZero();
      if b != 0 && Step(b, 0) == 0 {
        StepKernel(b);
      }
    }
  }

  // ---------------------------------------------------------------- six symbols

  /** While nothing leaves at the top, symbols are packed side by side. */
  lemma StepLow(c: bv32, v: bv8)
    requires c < 0x200_0000 && v < 32
    ensures Step(c, v) == Shifted(c, v) && Shifted(c, v) == (c << 5) ^ (v as bv32)
    ensures Shifted(c, v) == 0 <==> c == 0 && v == 0
  {
  }

  lemma XorNothing(a: bv32)
    ensures Xor(a, 0) == a
  {
  }

  /** The largest value `k` packed symbols reach. */
  function Limit(k: nat): bv32
    requires k <= 6
  {
    if k == 0 then 1 else if k == 1 then 0x20 else if k == 2 then 0x400 else if k == 3 then 0x8000
    else if k == 4 then 0x10_0000 else if k == 5 then 0x200_0000 else 0x4000_0000
  }

  predicate Within(c: bv32, k: nat)
    requires k <= 6
  {
    c < Limit(k)
  }

  lemma LimitNext(c: bv32, v: bv8, k: nat)
    requires k < 6 && Within(c, k) && v < 32
    ensures Within(Step(c, v), k + 1) && (Step(c, v) == 0 <==> c == 0 && v == 0)
  {
    hide Step, Shifted, Limit;
    ShiftWithin(c, v, k);
    StepLow(c, v);
  }

  lemma ShiftWithin(c: bv32, v: bv8, k: nat)
    requires k < 6 && c < Limit(k) && v < 32
    ensures c < 0x200_0000 && Shifted(c, v) < Limit(k + 1)
  {
  }

  /** Up to six symbols from zero: zero only if all are. */
  lemma {:induction false} ShortRun(v: seq<bv8>)
    requires |v| <= 6 && Symbols(v)
    ensures Within(Run(0, v), |v|) && (Run(0, v) == 0 <==> forall i :: 0 <= i < |v| ==> v[i] == 0)
    decreases |v|
  {
    hide Step, Within;
    if v == [] {
      LimitZero();
    } else {
      var last := |v| - 1;
      ShortRun(v[..last]);
      LimitNext(Run(0, v[..last]), v[last], last);
      assert forall i :: 0 <= i < last ==> v[..last][i] == v[i];
    }
  }

  lemma LimitZero()
    ensures Within(0, 0)
  {
  }

  // ---------------------------------------------------------------- detection

  lemma SymbolXor(a: bv8, b: bv8)
    requires a < 32 && b < 32
    ensures XorByte(a, b) < 32 && (XorByte(a, b) == 0 <==> a == b)
  {
  }

  lemma XorZero(a: bv32, b: bv32)
    ensures Xor(a, b) == 0 <==> a == b
  {
    hide Xor;
    XorAssociates(a, b, b);
    XorUnit(a);
    XorUnit(b);
  }

  lemma XorUnit(a: bv32)
    ensures Xor(a, a) == 0 && Xor(a, 0) == a && Xor(0, a) == a
  {
  }

  /** At any length, a valid list changed within six consecutive symbols is no longer valid. */
  lemma WindowDetected(v: seq<bv8>, w: seq<bv8>, at: nat)
    requires |v| == |w| && Symbols(v) && Symbols(w) && v != w && Run(1, v) == 1
    requires forall i :: 0 <= i < |v| && (i < at || i >= at + 6) ==> v[i] == w[i]
    ensures Run(1, w) != 1
  {
    hide Run, Xor, XorByte;
    var e := XorAll(v, w);
    forall i | 0 <= i < |v|
      ensures e[i] < 32 && (e[i] == 0 <==> v[i] == w[i])
    {
      SymbolXor(v[i], w[i]);
    }
    RunLinear(1, 1, v, w);
    XorZero(1, 1);
    XorZero(Run(1, v), Run(1, w));
    ErrorShows(e, at);
  }

  lemma Framed(e: seq<bv8>, at: nat, end: nat)
    requires at <= end <= |e| && forall i :: 0 <= i < |e| && (i < at || i >= end) ==> e[i] == 0
    ensures e == Zeroes(at) + (e[at..end] + Zeroes(|e| - end))
  {
  }

  /** An error pattern confined to six symbols leaves a trace. */
  lemma ErrorShows(e: seq<bv8>, at: nat)
    requires Symbols(e) && (exists i :: 0 <= i < |e| && e[i] != 0)
    requires forall i :: 0 <= i < |e| && (i < at || i >= at + 6) ==> e[i] == 0
    ensures Run(0, e) != 0
  {
    hide Run, Zeroes;
    var k :| 0 <= k < |e| && e[k] != 0;
    var end := if at + 6 < |e| then at + 6 else |e|;
    var mid := e[at..end];
    assert mid[k - at] == e[k];
    Framed(e, at, end);
    ShortRun(mid);
    RunBound(0, mid);
    RunFramed(mid, at, |e| - end);
  }

  /** Zeroes around a pattern do not hide it. */
  lemma RunFramed(mid: seq<bv8>, a: nat, b: nat)
    requires Run(0, mid) < 0x4000_0000
    ensures Run(0, Zeroes(a) + (mid + Zeroes(b))) == 0 <==> Run(0, mid) == 0
  {
    hide Run, Zeroes;
    RunConcat(0, Zeroes(a), mid + Zeroes(b));
    RunConcat(Run(0, Zeroes(a)), mid, Zeroes(b));
    RunZeroes(0, a);
    RunZeroes(Run(0, mid), b);
  }

  // ---------------------------------------------------------------- checksums

  /** ExpandHRP: the high bits of the characters, a zero, the low bits. */
  function Expanded(hrp: seq<bv8>): (r: seq<bv8>)
    ensures |r| == 2 * |hrp| + 1
  {
    seq(|hrp|, i requires 0 <= i < |hrp| => High(hrp[i])) + [0] + seq(|hrp|, i requires 0 <= i < |hrp| => Low(hrp[i]))
  }

  function High(c: bv8): bv8 { c >> 5 }

  function Low(c: bv8): bv8 { c & 0x1f }

  lemma ExpandedSymbols(hrp: seq<bv8>)
    ensures Symbols(Expanded(hrp))
  {
  }

  method ExpandHRP(hrp: seq<bv8>) returns (ret: seq<bv8>)
    ensures ret == Expanded(hrp)
  {
    hide High, Low;
    ret := Zeroes(2 * |hrp| + 1);
    for i := 0 to |hrp|
      invariant |ret| == 2 * |hrp| + 1 && ret[|hrp|] == 0
      invariant forall j :: 0 <= j < i ==> ret[j] == High(hrp[j]) && ret[j + |hrp| + 1] == Low(hrp[j])
    {
      var c := hrp[i];
      ret := ret[i := High(c)][i + |hrp| + 1 := Low(c)];
    }
    ret := ret[|hrp| := 0];
  }

  ghost predicate Verified(hrp: seq<bv8>, values: seq<bv8>) {
    Run(1, Expanded(hrp) + values) == 1
  }

  method VerifyChecksum(hrp: seq<bv8>, values: seq<bv8>) returns (ok: bool)
    ensures ok <==> Verified(hrp, values)
  {
    var expanded := ExpandHRP(hrp);
    var c := PolyMod(expanded + values);
    ok := c == 1;
  }

  function Down(m: bv32): bv32 { m >> 5 }

  function Group(m: bv32): (r: bv8)
    ensures r < 32
  {
    (m & 31) as bv8
  }

  /** A value without its `n` lowest groups. */
  function DownBy(m: bv32, n: nat): bv32 {
    if n == 0 then m else DownBy(Down(m), n - 1)
  }

  /** The shift by five bits for each of the groups after the `i`-th of six. */
  function ShiftedTo(m: bv32, i: nat): bv32
    requires i < 6
  {
    if i == 0 then m >> 25 else if i == 1 then m >> 20 else if i == 2 then m >> 15
    else if i == 3 then m >> 10 else if i == 4 then m >> 5 else m
  }

  /** Dropping groups one by one is one shift. */
  lemma ShiftedToIs(m: bv32, i: nat)
    requires i < 6
    ensures ShiftedTo(m, i) == DownBy(m, 5 - i)
  {
    hide DownBy, Down;
    DownSteps(m);
    Downs(m);
  }

  lemma DownSteps(m: bv32)
    ensures DownBy(m, 0) == m && DownBy(m, 1) == Down(m) && DownBy(m, 2) == Down(Down(m))
    ensures DownBy(m, 3) == Down(Down(Down(m))) && DownBy(m, 4) == Down(Down(Down(Down(m))))
    ensures DownBy(m, 5) == Down(Down(Down(Down(Down(m)))))
  {
  }

  lemma Downs(m: bv32)
    ensures Down(m) == m >> 5 && Down(Down(m)) == m >> 10 && Down(Down(Down(m))) == m >> 15
    ensures Down(Down(Down(Down(m)))) == m >> 20 && Down(Down(Down(Down(Down(m))))) == m >> 25
  {
  }

  /** The `k` lowest five-bit groups of a value, highest first. */
  function Groups(m: bv32, k: nat): (r: seq<bv8>)
    ensures |r| == k
  {
    if k == 0 then [] else Groups(Down(m), k - 1) + [Group(m)]
  }

  lemma {:induction false} GroupsAt(m: bv32, k: nat, i: nat)
    requires i < k
    ensures Groups(m, k)[i] == Group(DownBy(m, k - 1 - i))
    decreases k
  {
    hide Group, Down;
    if i < k - 1 {
      GroupsAt(Down(m), k - 1, i);
    }
  }

  /** Running the groups of a value from zero gives the value. */
  lemma {:induction false} GroupsRun(m: bv32, k: nat)
    requires k <= 6 && Within(m, k)
    ensures Run(0, Groups(m, k)) == m && Symbols(Groups(m, k))
    decreases k
  {
    hide Step, Down, Group, Within, Run;
    if k == 0 {
      RunNothing(m);
    } else {
      DownWithin(m, k);
      GroupsRun(Down(m), k - 1);
      RunPush(0, Groups(Down(m), k - 1), Group(m));
      OneGroup(m, k);
    }
  }

  lemma RunNothing(m: bv32)
    requires Within(m, 0)
    ensures Run(0, []) == m
  {
  }

  lemma RunPush(c: bv32, v: seq<bv8>, x: bv8)
    ensures Run(c, v + [x]) == Step(Run(c, v), x)
  {
  }

  lemma DownWithin(m: bv32, k: nat)
    requires 0 < k <= 6 && Within(m, k)
    ensures Within(Down(m), k - 1) && Down(m) < 0x200_0000
  {
  }

  /** A value is its last group on top of the others. */
  lemma OneGroup(m: bv32, k: nat)
    requires 0 < k <= 6 && Within(m, k)
    ensures Step(Down(m), Group(m)) == m
  {
    hide Step, Shifted, Down, Group;
    DownWithin(m, k);
    Regrouped(m);
    StepLow(Down(m), Group(m));
  }

  lemma Regrouped(m: bv32)
    ensures (Down(m) << 5) ^ (Group(m) as bv32) == m
  {
  }

  /** The checksum of a list: the groups of what its run still differs from 1 by. */
  ghost function Checksum(hrp: seq<bv8>, values: seq<bv8>): seq<bv8> {
    Groups(Xor(Run(1, Expanded(hrp) + values + Zeroes(6)), 1), 6)
  }

  method CreateChecksum(hrp: seq<bv8>, values: seq<bv8>) returns (ret: seq<bv8>)
    ensures ret == Checksum(hrp, values)
  {
    hide Run, Xor, Group, Down, Expanded;
    var expanded := ExpandHRP(hrp);
    var enc := expanded + values;
    enc := enc + Zeroes(6);
    var c := PolyMod(enc);
    var mod := Xor(c, 1);
    ret := Zeroes(6);
    for i := 0 to 6
      invariant |ret| == 6 && forall j :: 0 <= j < i ==> ret[j] == Group(DownBy(mod, 5 - j))
    {
      ShiftedToIs(mod, i);
      ret := ret[i := Group(ShiftedTo(mod, i))];
    }
    forall j | 0 <= j < 6
      ensures ret[j] == Groups(mod, 6)[j]
    {
      GroupsAt(mod, 6, j);
    }
  }

  /** A list followed by its checksum is valid. */
  lemma ChecksumVerifies(hrp: seq<bv8>, values: seq<bv8>)
    requires Symbols(values)
    ensures Verified(hrp, values + Checksum(hrp, values)) && Symbols(Checksum(hrp, values))
  {
    hide Run, Xor, Groups, Expanded, Within;
    var list := Expanded(hrp) + values;
    var m := Run(1, list + Zeroes(6));
    var ck := Checksum(hrp, values);
    ExpandedSymbols(hrp);
    OneWithin(list + Zeroes(6));
    GroupsRun(Xor(m, 1), 6);
    RunConcat(1, list, Zeroes(6));
    RunConcat(1, list, ck);
    LastSix(Run(1, list), ck);
    assert Expanded(hrp) + (values + ck) == list + ck;
    XorBack(m);
  }

  lemma OneWithin(v: seq<bv8>)
    requires Symbols(v)
    ensures Within(Xor(Run(1, v), 1), 6)
  {
    hide Run;
    RunBound(1, v);
  }

  lemma XorBack(m: bv32)
    ensures Xor(m, Xor(m, 1)) == 1
  {
  }

  /** The last six symbols enter a run by exclusive or. */
  lemma LastSix(c: bv32, ck: seq<bv8>)
    requires |ck| == 6
    ensures Run(c, ck) == Xor(Run(c, Zeroes(6)), Run(0, ck))
  {
    hide Run;
    RunLinear(c, 0, Zeroes(6), ck);
    assert XorAll(Zeroes(6), ck) == ck;
    XorNothing(c);
  }

  /** Only one checksum fits a list. */
  lemma ChecksumUnique(hrp: seq<bv8>, values: seq<bv8>, ck: seq<bv8>)
    requires Symbols(values) && Symbols(ck) && |ck| == 6 && Verified(hrp, values + ck)
    ensures ck == Checksum(hrp, values)
  {
    hide Run, Expanded;
    ChecksumVerifies(hrp, values);
    var good := Checksum(hrp, values);
    var v, w := Expanded(hrp) + (values + ck), Expanded(hrp) + (values + good);
    ExpandedSymbols(hrp);
    if v != w {
      WindowDetected(v, w, |Expanded(hrp)| + |values|);
    }
    assert ck == v[|Expanded(hrp)| + |values|..] && good == w[|Expanded(hrp)| + |values|..];
  }

  // ---------------------------------------------------------------- strings

  // CHARSET and CHARSET_REV, as ASCII codes, in two halves; 0xFF stands for -1.

  function Sym(k: bv8): bv8 { if k < 16 then SymLow(k) else SymHigh(k) }

  function SymLow(k: bv8): bv8 {
    if k == 0 then 0x71 else if k == 1 then 0x70 else if k == 2 then 0x7A else if k == 3 then 0x72
    else if k == 4 then 0x79 else if k == 5 then 0x39 else if k == 6 then 0x78 else if k == 7 then 0x38
    else if k == 8 then 0x67 else if k == 9 then 0x66 else if k == 10 then 0x32 else if k == 11 then 0x74
    else if k == 12 then 0x76 else if k == 13 then 0x64 else if k == 14 then 0x77 else if k == 15 then 0x30
    else 0
  }

  function SymHigh(k: bv8): bv8 {
    if k == 16 then 0x73 else if k == 17 then 0x33 else if k == 18 then 0x6A else if k == 19 then 0x6E
    else if k == 20 then 0x35 else if k == 21 then 0x34 else if k == 22 then 0x6B else if k == 23 then 0x68
    else if k == 24 then 0x63 else if k == 25 then 0x65 else if k == 26 then 0x36 else if k == 27 then 0x6D
    else if k == 28 then 0x75 else if k == 29 then 0x61 else if k == 30 then 0x37 else if k == 31 then 0x6C
    else 0
  }

  function LowerCase(c: bv8): bv8 { if 0x41 <= c <= 0x5A then c + 0x20 else c }

  function Rev(c: bv8): bv8 { RevLower(LowerCase(c)) }

  function RevLower(c: bv8): bv8 { if RevLow(c) != 0xFF then RevLow(c) else RevHigh(c) }

  function RevLow(c: bv8): bv8 {
    if c == 0x71 then 0 else if c == 0x70 then 1 else if c == 0x7A then 2 else if c == 0x72 then 3
    else if c == 0x79 then 4 else if c == 0x39 then 5 else if c == 0x78 then 6 else if c == 0x38 then 7
    else if c == 0x67 then 8 else if c == 0x66 then 9 else if c == 0x32 then 10 else if c == 0x74 then 11
    else if c == 0x76 then 12 else if c == 0x64 then 13 else if c == 0x77 then 14 else if c == 0x30 then 15
    else 0xFF
  }

  function RevHigh(c: bv8): bv8 {
    if c == 0x73 then 16 else if c == 0x33 then 17 else if c == 0x6A then 18 else if c == 0x6E then 19
    else if c == 0x35 then 20 else if c == 0x34 then 21 else if c == 0x6B then 22 else if c == 0x68 then 23
    else if c == 0x63 then 24 else if c == 0x65 then 25 else if c == 0x36 then 26 else if c == 0x6D then 27
    else if c == 0x75 then 28 else if c == 0x61 then 29 else if c == 0x37 then 30 else if c == 0x6C then 31
    else 0xFF
  }

  lemma LowHalf(k: bv8)
    requires k < 16
    ensures RevLow(SymLow(k)) == k && Plain(SymLow(k))
  {
  }

  lemma HighHalf(k: bv8)
    requires 16 <= k < 32
    ensures RevLow(SymHigh(k)) == 0xFF && RevHigh(SymHigh(k)) == k && Plain(SymHigh(k))
  {
  }

  /** Printable, not upper case, and not the separator. */
  predicate Plain(c: bv8) { 33 <= c <= 126 && c != 0x31 && !(0x41 <= c <= 0x5A) }

  lemma RevLowHalf(c: bv8)
    requires RevLow(c) != 0xFF
    ensures RevLow(c) < 16 && SymLow(RevLow(c)) == c
  {
  }

  lemma RevHighHalf(c: bv8)
    requires RevHigh(c) != 0xFF
    ensures 16 <= RevHigh(c) < 32 && SymHigh(RevHigh(c)) == c
  {
  }

  lemma SymRev(k: bv8)
    requires k < 32
    ensures Rev(Sym(k)) == k && Plain(Sym(k)) && LowerCase(Sym(k)) == Sym(k) && k != 0xFF
  {
    hide SymLow, SymHigh, RevLow, RevHigh;
    if k < 16 {
      LowHalf(k);
    } else {
      HighHalf(k);
    }
  }

  lemma RevSym(c: bv8)
    requires Rev(c) != 0xFF
    ensures Rev(c) < 32 && Sym(Rev(c)) == LowerCase(c)
  {
    hide SymLow, SymHigh, RevLow, RevHigh, LowerCase;
    var l := LowerCase(c);
    if RevLow(l) != 0xFF {
      RevLowHalf(l);
    } else {
      RevHighHalf(l);
    }
  }

  function Syms(v: seq<bv8>): (r: seq<bv8>)
    ensures |r| == |v|
  {
    seq(|v|, i requires 0 <= i < |v| => Sym(v[i]))
  }

  function Revs(s: seq<bv8>): (r: seq<bv8>)
    ensures |r| == |s|
  {
    seq(|s|, i requires 0 <= i < |s| => Rev(s[i]))
  }

  function Lower(s: seq<bv8>): (r: seq<bv8>)
    ensures |r| == |s|
  {
    seq(|s|, i requires 0 <= i < |s| => LowerCase(s[i]))
  }

  /** Prefix, separator, and the symbols with their checksum. */
  ghost function Encoded(hrp: seq<bv8>, values: seq<bv8>): seq<bv8> {
    hrp + [0x31] + Syms(values + Checksum(hrp, values))
  }

  method Encode(hrp: seq<bv8>, values: seq<bv8>) returns (ret: seq<bv8>)
    ensures ret == Encoded(hrp, values)
  {
    hide Sym, Checksum;
    var checksum := CreateChecksum(hrp, values);
    var combined := values + checksum;
    ret := hrp + [0x31];
    for i := 0 to |combined|
      invariant ret == hrp + [0x31] + Syms(combined[..i])
    {
      assert Syms(combined[..i + 1]) == Syms(combined[..i]) + [Sym(combined[i])];
      ret := ret + [Sym(combined[i])];
    }
    assert combined[..|combined|] == combined;
  }

  predicate IsLower(c: bv8) { 0x61 <= c <= 0x7A }

  predicate IsUpper(c: bv8) { 0x41 <= c <= 0x5A }

  predicate Printable(c: bv8) { 33 <= c <= 126 }

  ghost predicate OneCase(s: seq<bv8>) {
    && (forall i :: 0 <= i < |s| ==> Printable(s[i]))
    && !((exists i :: 0 <= i < |s| && IsLower(s[i])) && (exists i :: 0 <= i < |s| && IsUpper(s[i])))
  }

  /** rfind: the last separator, or -1. */
  function LastOne(s: seq<bv8>): (r: int)
    ensures -1 <= r < |s| && (r >= 0 ==> s[r] == 0x31) && forall i :: r < i < |s| ==> s[i] != 0x31
  {
    if s == [] then -1 else if s[|s| - 1] == 0x31 then |s| - 1 else LastOne(s[..|s| - 1])
  }

  /** The strings Decode accepts. */
  ghost predicate Accepted(s: seq<bv8>) {
    var pos := LastOne(s);
    && OneCase(s) && |s| <= 90 && 0 < pos && pos + 7 <= |s|
    && (forall i :: pos < i < |s| ==> Rev(s[i]) != 0xFF)
    && Verified(Lower(s[..pos]), Revs(s[pos + 1..]))
  }

  method CheckCase(str: seq<bv8>) returns (ok: bool)
    ensures ok <==> OneCase(str)
  {
    hide IsLower, IsUpper, Printable;
    LettersArePrintable();
    var lower, upper := false, false;
    for i := 0 to |str|
      invariant lower <==> exists j :: 0 <= j < i && IsLower(str[j])
      invariant upper <==> exists j :: 0 <= j < i && IsUpper(str[j])
      invariant forall j :: 0 <= j < i ==> Printable(str[j])
    {
      var c := str[i];
      if IsLower(c) {
        lower := true;
      } else if IsUpper(c) {
        upper := true;
      } else if !Printable(c) {
        return false;
      }
    }
    return !(lower && upper);
  }

  lemma LettersArePrintable()
    ensures forall c: bv8 :: IsLower(c) ==> Printable(c) && !IsUpper(c)
    ensures forall c: bv8 :: IsUpper(c) ==> Printable(c)
  {
  }

  /** An empty prefix stands for refusal. */
  method Decode(str: seq<bv8>) returns (hrp: seq<bv8>, values: seq<bv8>)
    ensures hrp != [] <==> Accepted(str)
    ensures hrp != [] ==> hrp == Lower(str[..LastOne(str)]) && values == Revs(str[LastOne(str) + 1..|str| - 6])
  {
    hide Rev, LowerCase, OneCase, Verified;
    hrp, values := [], [];
    var ok := CheckCase(str);
    if !ok {
      return [], [];
    }
    var pos := LastOne(str);
    if |str| > 90 || pos == -1 || pos == 0 || pos + 7 > |str| {
      return [], [];
    }
    var v: seq<bv8> := [];
    for i := 0 to |str| - 1 - pos
      invariant v == Revs(str[pos + 1..pos + 1 + i])
      invariant forall j :: pos < j < pos + 1 + i ==> Rev(str[j]) != 0xFF
    {
      var rev := Rev(str[i + pos + 1]);
      if rev == 0xFF {
        return [], [];
      }
      assert Revs(str[pos + 1..pos + 2 + i]) == Revs(str[pos + 1..pos + 1 + i]) + [rev];
      v := v + [rev];
    }
    var h: seq<bv8> := [];
    for i := 0 to pos
      invariant h == Lower(str[..i])
    {
      assert Lower(str[..i + 1]) == Lower(str[..i]) + [LowerCase(str[i])];
      h := h + [LowerCase(str[i])];
    }
    assert pos + 1 + (|str| - 1 - pos) == |str|;
    assert str[pos + 1..|str|] == str[pos + 1..];
    ok := VerifyChecksum(h, v);
    if !ok {
      return [], [];
    }
    assert v[..|v| - 6] == Revs(str[pos + 1..|str| - 6]);
    return h, v[..|v| - 6];
  }

  // ---------------------------------------------------------------- round trips

  /** A prefix as BIP 173 wants it encoded. */
  ghost predicate LowerPrefix(hrp: seq<bv8>) {
    hrp != [] && forall i :: 0 <= i < |hrp| ==> Printable(hrp[i]) && !IsUpper(hrp[i])
  }

  /** Encoding and decoding gives prefix and symbols back, up to 90 characters. */
  method EncodeThenDecode(hrp: seq<bv8>, values: seq<bv8>) returns (hrp': seq<bv8>, values': seq<bv8>)
    requires LowerPrefix(hrp) && Symbols(values) && |hrp| + |values| + 7 <= 90
    ensures hrp' == hrp && values' == values
  {
    hide Accepted, Encoded, LowerPrefix;
    var str := Encode(hrp, values);
    EncodedAccepted(hrp, values);
    hrp', values' := Decode(str);
  }

  lemma LowerStays(c: bv8)
    requires !IsUpper(c)
    ensures LowerCase(c) == c
  {
  }

  lemma PlainIs(c: bv8)
    requires Plain(c)
    ensures Printable(c) && !IsUpper(c) && c != 0x31
  {
  }

  lemma EncodedAccepted(hrp: seq<bv8>, values: seq<bv8>)
    requires LowerPrefix(hrp) && Symbols(values) && |hrp| + |values| + 7 <= 90
    ensures var s := Encoded(hrp, values);
            && Accepted(s) && LastOne(s) == |hrp|
            && Lower(s[..|hrp|]) == hrp && Revs(s[|hrp| + 1..|s| - 6]) == values
  {
    hide Checksum, Sym, Rev, LowerCase, Plain, Verified, Symbols, IsUpper, IsLower, Printable;
    ChecksumVerifies(hrp, values);
    var ck := Checksum(hrp, values);
    ChecksumLength(hrp, values);
    var all, s := values + ck, Encoded(hrp, values);
    SymbolsBoth(values, ck);
    EncodedText(hrp, all);
    assert s[..|hrp|] == hrp && s[|hrp| + 1..] == Syms(all);
    assert s[|hrp| + 1..|s| - 6] == Syms(all)[..|values|];
    assert Revs(Syms(all)[..|values|]) == Revs(Syms(all))[..|values|] == values;
  }

  lemma ChecksumLength(hrp: seq<bv8>, values: seq<bv8>)
    ensures |Checksum(hrp, values)| == 6
  {
  }

  lemma SymbolsBoth(v: seq<bv8>, w: seq<bv8>)
    requires Symbols(v) && Symbols(w)
    ensures Symbols(v + w)
  {
  }

  /** The text of a lower-case prefix and symbols, character by character. */
  lemma EncodedText(hrp: seq<bv8>, all: seq<bv8>)
    requires LowerPrefix(hrp) && Symbols(all)
    ensures var s := hrp + [0x31] + Syms(all);
            && OneCase(s) && LastOne(s) == |hrp| && Lower(hrp) == hrp
            && Revs(Syms(all)) == all && forall i :: |hrp| < i < |s| ==> Rev(s[i]) != 0xFF
  {
    hide Sym, Rev, LowerCase, Plain, IsUpper, IsLower, Printable;
    var s := hrp + [0x31] + Syms(all);
    forall i | 0 <= i < |all|
      ensures Rev(Sym(all[i])) == all[i] != 0xFF && Printable(Sym(all[i])) && !IsUpper(Sym(all[i]))
      ensures Sym(all[i]) != 0x31
    {
      SymRev(all[i]);
      PlainIs(Sym(all[i]));
    }
    forall i | 0 <= i < |hrp|
      ensures LowerCase(hrp[i]) == hrp[i]
    {
      LowerStays(hrp[i]);
    }
    Separator();
    assert forall i :: |hrp| < i < |s| ==> s[i] == Sym(all[i - |hrp| - 1]);
    assert forall i :: 0 <= i < |s| ==> Printable(s[i]) && !IsUpper(s[i]);
    assert s[|hrp|] == 0x31;
  }

  lemma Separator()
    ensures Printable(0x31) && !IsUpper(0x31)
  {
  }

  /** Decoding and encoding again gives the string in lower case. */
  method DecodeThenEncode(str: seq<bv8>) returns (ok: bool, back: seq<bv8>)
    ensures ok <==> Accepted(str)
    ensures ok ==> back == Lower(str)
  {
    hide Accepted, Encoded;
    var hrp, values := Decode(str);
    ok := hrp != [];
    back := [];
    if ok {
      AcceptedEncodes(str);
      back := Encode(hrp, values);
    }
  }

  lemma AcceptedEncodes(str: seq<bv8>)
    requires Accepted(str)
    ensures LastOne(str) >= 0 && LastOne(str) + 7 <= |str|
    ensures Encoded(Lower(str[..LastOne(str)]), Revs(str[LastOne(str) + 1..|str| - 6])) == Lower(str)
  {
    hide Checksum, Verified, OneCase, Lower, Revs, Syms, Symbols, Rev, LastOne;
    var pos := LastOne(str);
    var hrp, values, ck := Lower(str[..pos]), Revs(str[pos + 1..|str| - 6]), Revs(str[|str| - 6..]);
    TailParts(str, pos);
    ChecksumUnique(hrp, values, ck);
    LowerSplit(str, pos);
  }

  /** What follows the separator: symbols, and six more for the checksum. */
  lemma TailParts(str: seq<bv8>, pos: nat)
    requires pos + 7 <= |str| && forall i :: pos < i < |str| ==> Rev(str[i]) != 0xFF
    ensures var values, ck := Revs(str[pos + 1..|str| - 6]), Revs(str[|str| - 6..]);
            && Revs(str[pos + 1..]) == values + ck && Symbols(values) && Symbols(ck)
            && Syms(values + ck) == Lower(str[pos + 1..])
  {
    hide Rev, Revs, Syms, Lower, Symbols;
    var tail := str[pos + 1..];
    assert tail[..|tail| - 6] == str[pos + 1..|str| - 6];
    assert tail[|tail| - 6..] == str[|str| - 6..];
    RevsSplit(tail, |tail| - 6);
    SymsOfRevs(tail);
    SymbolsParts(Revs(str[pos + 1..|str| - 6]), Revs(str[|str| - 6..]));
  }

  lemma RevsSplit(s: seq<bv8>, k: nat)
    requires k <= |s|
    ensures Revs(s) == Revs(s[..k]) + Revs(s[k..])
  {
    hide Rev;
  }

  lemma SymsOfRevs(s: seq<bv8>)
    requires forall i :: 0 <= i < |s| ==> Rev(s[i]) != 0xFF
    ensures Symbols(Revs(s)) && Syms(Revs(s)) == Lower(s)
  {
    hide Sym, Rev, LowerCase;
    forall i | 0 <= i < |s|
      ensures Rev(s[i]) < 32 && Sym(Rev(s[i])) == LowerCase(s[i])
    {
      RevSym(s[i]);
    }
  }

  lemma SymbolsParts(v: seq<bv8>, w: seq<bv8>)
    requires Symbols(v + w)
    ensures Symbols(v) && Symbols(w)
  {
    assert forall i :: 0 <= i < |v| ==> (v + w)[i] == v[i];
    assert forall i :: 0 <= i < |w| ==> (v + w)[|v| + i] == w[i];
  }

  lemma LowerSplit(s: seq<bv8>, pos: nat)
    requires pos < |s| && s[pos] == 0x31
    ensures Lower(s) == Lower(s[..pos]) + [0x31] + Lower(s[pos + 1..])
  {
  }

}
