/** Which camera gets which pipe (spiffer/spiffer.cpp, lines 484 to 603): devices are discovered,
    sorted by serial number, and every input pipe is given a listener. */
module UsbPipes {

  type Char = n: nat | 1 <= n < 256
    witness 1

  /** A serial number up to its terminating zero. */
  type Serial = seq<Char>

  /** The order of strcmp, as a sign. */
  function StrCmp(a: Serial, b: Serial): int {
    if a == [] && b == [] then 0
    else if a == [] then -1
    else if b == [] then 1
    else if a[0] != b[0] then (if a[0] < b[0] then -1 else 1)
    else StrCmp(a[1..], b[1..])
  }

  lemma {:induction false} StrCmpOrder(a: Serial, b: Serial, c: Serial)
    ensures StrCmp(a, b) == 0 <==> a == b
    ensures StrCmp(a, b) == -StrCmp(b, a)
    ensures StrCmp(a, b) <= 0 && StrCmp(b, c) <= 0 ==> StrCmp(a, c) <= 0
  {
    if a != [] && b != [] && a[0] == b[0] {
      StrCmpOrder(a[1..], b[1..], if c == [] then [] else c[1..]);
      assert a == [a[0]] + a[1..] && b == [b[0]] + b[1..];
    }
  }

  /** Dictionary order: a proper prefix first, otherwise the smaller character at the first
      difference. */
  predicate LexLess(a: Serial, b: Serial) {
    || (|a| < |b| && a == b[..|a|])
    || exists k :: 0 <= k < |a| && DiffersFirstAt(a, b, k) && a[k] < b[k]
  }

  predicate DiffersFirstAt(a: Serial, b: Serial, k: nat) {
    k < |a| && k < |b| && a[..k] == b[..k] && a[k] != b[k]
  }

  lemma {:induction false} StrCmpIsLexLess(a: Serial, b: Serial)
    ensures StrCmp(a, b) < 0 <==> LexLess(a, b)
  {
    if a == [] || b == [] {
    } else if a[0] != b[0] {
      assert DiffersFirstAt(a, b, 0);
    } else {
      StrCmpIsLexLess(a[1..], b[1..]);
      TailLexLess(a, b);
    }
  }

  lemma TailDiffers(a: Serial, b: Serial, k: nat)
    requires a != [] && b != [] && a[0] == b[0]
    ensures DiffersFirstAt(a[1..], b[1..], k) <==> DiffersFirstAt(a, b, k + 1)
  {
    if k + 1 < |a| && k + 1 < |b| {
      assert a[..k + 1] == [a[0]] + a[1..][..k] && b[..k + 1] == [b[0]] + b[1..][..k];
      assert a[1..][..k] == a[..k + 1][1..] && b[1..][..k] == b[..k + 1][1..];
    }
  }

  lemma TailLexLess(a: Serial, b: Serial)
    requires a != [] && b != [] && a[0] == b[0]
    ensures LexLess(a, b) <==> LexLess(a[1..], b[1..])
  {
    forall k: nat
      ensures DiffersFirstAt(a[1..], b[1..], k) <==> DiffersFirstAt(a, b, k + 1)
    {
      TailDiffers(a, b, k);
    }
    assert !DiffersFirstAt(a, b, 0);
    if |a| < |b| {
      assert b[..|a|] == [b[0]] + b[1..][..|a[1..]|] && a == [a[0]] + a[1..];
    }
    if LexLess(a, b) && !(|a| < |b| && a == b[..|a|]) {
      var k: nat :| DiffersFirstAt(a, b, k) && a[k] < b[k];
      assert DiffersFirstAt(a[1..], b[1..], k - 1);
    }
    if LexLess(a[1..], b[1..]) && !(|a[1..]| < |b[1..]| && a[1..] == b[1..][..|a[1..]|]) {
      var k: nat :| DiffersFirstAt(a[1..], b[1..], k) && a[1..][k] < b[1..][k];
      assert DiffersFirstAt(a, b, k + 1);
    }
  }

  // ---------------------------------------------------------------------------
  // The sorted list
  // ---------------------------------------------------------------------------

  /** Device `x` comes before device `y`: smaller serial, or the same one found earlier. */
  predicate Before(sn: seq<Serial>, x: nat, y: nat)
    requires x < |sn| && y < |sn|
  {
    var c := StrCmp(sn[x], sn[y]);
    c < 0 || (c == 0 && x < y)
  }

  lemma BeforeOrder(sn: seq<Serial>, x: nat, y: nat, z: nat)
    requires x < |sn| && y < |sn| && z < |sn|
    ensures !Before(sn, x, x)
    ensures x != y ==> (Before(sn, x, y) <==> !Before(sn, y, x))
    ensures Before(sn, x, y) && Before(sn, y, z) ==> Before(sn, x, z)
  {
    StrCmpOrder(sn[x], sn[x], sn[x]);
    StrCmpOrder(sn[x], sn[y], sn[z]);
    StrCmpOrder(sn[y], sn[z], sn[x]);
    StrCmpOrder(sn[z], sn[x], sn[y]);
  }

  /** A list of all `n` devices, each once. */
  predicate IsPermutation(s: seq<int>, n: nat) {
    && |s| == n
    && (forall k :: 0 <= k < n ==> 0 <= s[k] < n)
    && (forall j, k :: 0 <= j < k < n ==> s[j] != s[k])
  }

  predicate Sorted(sn: seq<Serial>, s: seq<int>, lo: nat)
    requires IsPermutation(s, |sn|) && lo <= |s|
  {
    forall j, k :: 0 <= j < k < |s| && lo <= k ==> Before(sn, s[j], s[k])
  }

  /** Devices with equal serials are still in discovery order. */
  predicate Stable(sn: seq<Serial>, s: seq<int>)
    requires IsPermutation(s, |sn|)
  {
    forall j, k :: 0 <= j < k < |s| && sn[s[j]] == sn[s[k]] ==> s[j] < s[k]
  }

  lemma SwapKeeps(sn: seq<Serial>, s: seq<int>, j: nat)
    requires IsPermutation(s, |sn|) && Stable(sn, s) && j + 1 < |s|
    requires StrCmp(sn[s[j]], sn[s[j + 1]]) > 0
    ensures var t := s[j := s[j + 1]][j + 1 := s[j]];
            IsPermutation(t, |sn|) && Stable(sn, t) && Before(sn, t[j], t[j + 1])
  {
    StrCmpOrder(sn[s[j]], sn[s[j + 1]], []);
  }

  lemma StableBefore(sn: seq<Serial>, s: seq<int>, j: nat)
    requires IsPermutation(s, |sn|) && Stable(sn, s) && j + 1 < |s|
    requires StrCmp(sn[s[j]], sn[s[j + 1]]) <= 0
    ensures Before(sn, s[j], s[j + 1])
  {
    StrCmpOrder(sn[s[j]], sn[s[j + 1]], []);
  }

  /** The largest of the devices up to place `j` sits at place `j`. */
  predicate LargestAt(sn: seq<Serial>, s: seq<int>, j: nat)
    requires IsPermutation(s, |sn|) && j < |s|
  {
    forall k :: 0 <= k < j ==> Before(sn, s[k], s[j])
  }

  // ---------------------------------------------------------------------------
  // Ranks
  // ---------------------------------------------------------------------------

  /** The devices that come before device `x`. */
  function Earlier(sn: seq<Serial>, x: nat): set<nat>
    requires x < |sn|
  {
    set y: nat | y < |sn| && Before(sn, y, x)
  }

  /** The first `p` entries of a list. */
  function FirstEntries(s: seq<int>, n: nat, p: nat): set<nat>
    requires IsPermutation(s, n) && p <= n
  {
    set k: nat | k < p :: s[k] as nat
  }

  lemma {:induction false} FirstEntriesSize(s: seq<int>, n: nat, p: nat)
    requires IsPermutation(s, n) && p <= n
    ensures |FirstEntries(s, n, p)| == p
  {
    if p == 0 {
      assert FirstEntries(s, n, 0) == {};
    } else {
      FirstEntriesSize(s, n, p - 1);
      assert FirstEntries(s, n, p) == FirstEntries(s, n, p - 1) + {s[p - 1] as nat};
    }
  }

  function UpTo(n: nat): (a: set<nat>)
    ensures |a| == n && forall x: nat :: x in a <==> x < n
  {
    if n == 0 then {} else UpTo(n - 1) + {n - 1}
  }

  lemma FullSetSize(n: nat, a: set<nat>)
    requires a <= UpTo(n) && |a| == n
    ensures a == UpTo(n)
  {
    var missing := UpTo(n) - a;
    assert UpTo(n) == a + missing;
    assert |missing| == 0;
  }

  /** Every device is on the list. */
  lemma PlaceOf(s: seq<int>, n: nat, x: nat) returns (p: nat)
    requires IsPermutation(s, n) && x < n
    ensures p < n && s[p] == x
  {
    FirstEntriesSize(s, n, n);
    FullSetSize(n, FirstEntries(s, n, n));
    assert x in FirstEntries(s, n, n);
    p :| p < n && s[p] == x;
  }

  /** In a sorted list the device at place `p` has exactly `p` devices before it. */
  lemma PlaceIsRank(sn: seq<Serial>, s: seq<int>, p: nat)
    requires IsPermutation(s, |sn|) && Sorted(sn, s, 0) && p < |sn|
    ensures |Earlier(sn, s[p])| == p
  {
    FirstEntriesSize(s, |sn|, p);
    assert Earlier(sn, s[p]) == FirstEntries(s, |sn|, p) by {
      forall y: nat | y < |sn|
        ensures y in Earlier(sn, s[p]) <==> y in FirstEntries(s, |sn|, p)
      {
        var q := PlaceOf(s, |sn|, y);
        BeforeOrder(sn, s[p], y, y);
        if q < p {
          assert Before(sn, s[q], s[p]);
        } else if p < q {
          assert Before(sn, s[p], s[q]);
        }
      }
    }
  }

  /** A device's pipe is its rank, and every pipe below the number of devices is some device's. */
  predicate PipesAreRanks(sn: seq<Serial>, pipe: seq<int>) {
    && |pipe| == |sn|
    && (forall x :: 0 <= x < |sn| ==> pipe[x] == |Earlier(sn, x)|)
  }

  predicate IsBijection(pipe: seq<int>, n: nat) {
    && IsPermutation(pipe, n)
    && forall p :: 0 <= p < n ==> p in pipe
  }

  /** The smaller serials among those of all devices. */
  function Smaller(all: set<Serial>, sn: Serial): set<Serial> {
    set t | t in all && StrCmp(t, sn) < 0
  }

  function Serials(sn: seq<Serial>): set<Serial> { set k | 0 <= k < |sn| :: sn[k] }

  predicate Distinct(sn: seq<Serial>) { forall j, k :: 0 <= j < k < |sn| ==> sn[j] != sn[k] }

  /** MAIN RESULT. With distinct serials the rank of a device, hence its pipe, depends only on
      its serial and on the set of all serials, not on the order of discovery. */
  lemma RankIgnoresDiscoveryOrder(sn: seq<Serial>, x: nat)
    requires Distinct(sn) && x < |sn|
    ensures |Earlier(sn, x)| == |Smaller(Serials(sn), sn[x])|
  {
    var e, m := Earlier(sn, x), Smaller(Serials(sn), sn[x]);
    forall y: nat | y < |sn|
      ensures y in e <==> StrCmp(sn[y], sn[x]) < 0
    {
      StrCmpOrder(sn[y], sn[x], []);
    }
    assert m == set y | y in e :: sn[y];
    ImageSize(sn, e);
  }

  /** So a camera gets the same pipe however the devices were discovered. */
  lemma SamePipeHoweverDiscovered(sn: seq<Serial>, x: nat, sn': seq<Serial>, x': nat)
    requires Distinct(sn) && Distinct(sn') && Serials(sn) == Serials(sn')
    requires x < |sn| && x' < |sn'| && sn[x] == sn'[x']
    ensures |Earlier(sn, x)| == |Earlier(sn', x')|
  {
    RankIgnoresDiscoveryOrder(sn, x);
    RankIgnoresDiscoveryOrder(sn', x');
  }

  lemma {:induction false} ImageSize(sn: seq<Serial>, e: set<nat>)
    requires Distinct(sn) && forall y <- e :: y < |sn|
    ensures |set y | y in e :: sn[y]| == |e|
  {
    var image := set y | y in e :: sn[y];
    if e == {} {
      assert image == {};
    } else {
      var x :| x in e;
      ImageSize(sn, e - {x});
      var rest := set y | y in e - {x} :: sn[y];
      assert sn[x] !in rest;
      assert image == rest + {sn[x]};
    }
  }

  // ---------------------------------------------------------------------------
  // The sort itself
  // ---------------------------------------------------------------------------

  /** One pass of the bubble sort: the largest device of the first `last + 1` moves to place
      `last`. */
  method BubblePass(sn: seq<Serial>, sorted: array<int>, last: nat)
    requires last < sorted.Length == |sn| && IsPermutation(sorted[..], |sn|)
    requires Stable(sn, sorted[..]) && Sorted(sn, sorted[..], last + 1)
    modifies sorted
    ensures IsPermutation(sorted[..], |sn|) && Stable(sn, sorted[..]) && Sorted(sn, sorted[..], last)
  {
    hide StrCmp, Before, Sorted, Stable, LargestAt;
    var j := 0;
    LargestOfNone(sn, sorted[..]);
    while j < last
      invariant j <= last && IsPermutation(sorted[..], |sn|)
      invariant Stable(sn, sorted[..]) && Sorted(sn, sorted[..], last + 1)
      invariant LargestAt(sn, sorted[..], j)
    {
      ghost var s := sorted[..];
      if StrCmp(sn[sorted[j]], sn[sorted[j + 1]]) > 0 {
        SwapKeeps(sn, s, j);
        SwapMovesLargest(sn, s, j, last);
        sorted[j], sorted[j + 1] := sorted[j + 1], sorted[j];
        assert sorted[..] == s[j := s[j + 1]][j + 1 := s[j]];
      } else {
        StableBefore(sn, s, j);
        LargestMovesOn(sn, s, j);
      }
      j := j + 1;
    }
    LargestIsSorted(sn, sorted[..], last);
  }

  lemma LargestOfNone(sn: seq<Serial>, s: seq<int>)
    requires IsPermutation(s, |sn|) && s != []
    ensures LargestAt(sn, s, 0)
  {
  }

  lemma LargestIsSorted(sn: seq<Serial>, s: seq<int>, last: nat)
    requires IsPermutation(s, |sn|) && last < |s| && Sorted(sn, s, last + 1) && LargestAt(sn, s, last)
    ensures Sorted(sn, s, last)
  {
    hide Before;
  }

  lemma SwapMovesLargest(sn: seq<Serial>, s: seq<int>, j: nat, last: nat)
    requires IsPermutation(s, |sn|) && j + 1 <= last < |s| && Sorted(sn, s, last + 1) && LargestAt(sn, s, j)
    requires var t := s[j := s[j + 1]][j + 1 := s[j]]; IsPermutation(t, |sn|) && Before(sn, t[j], t[j + 1])
    ensures var t := s[j := s[j + 1]][j + 1 := s[j]]; Sorted(sn, t, last + 1) && LargestAt(sn, t, j + 1)
  {
    hide Before;
    var t := s[j := s[j + 1]][j + 1 := s[j]];
    forall i, k | 0 <= i < k < |t| && last + 1 <= k
      ensures Before(sn, t[i], t[k])
    {
      assert t[k] == s[k];
      assert Before(sn, s[if i == j then j + 1 else if i == j + 1 then j else i], s[k]);
    }
  }

  lemma LargestMovesOn(sn: seq<Serial>, s: seq<int>, j: nat)
    requires IsPermutation(s, |sn|) && j + 1 < |s| && LargestAt(sn, s, j) && Before(sn, s[j], s[j + 1])
    ensures LargestAt(sn, s, j + 1)
  {
    forall k | 0 <= k < j
      ensures Before(sn, s[k], s[j + 1])
    {
      BeforeOrder(sn, s[k], s[j], s[j + 1]);
    }
  }

  method SortDevices(sn: seq<Serial>, sorted: array<int>)
    requires sorted.Length == |sn|
    modifies sorted
    ensures IsPermutation(sorted[..], |sn|) && Sorted(sn, sorted[..], 0)
  {
    var dv := 0;
    while dv < |sn|
      invariant dv <= |sn|
      invariant forall k :: 0 <= k < dv ==> sorted[k] == k
    {
      sorted[dv] := dv;
      dv := dv + 1;
    }
    var i := 0;
    while i < |sn| - 1
      invariant 0 <= i && (i < |sn| || |sn| == 0 == i)
      invariant IsPermutation(sorted[..], |sn|) && Stable(sn, sorted[..]) && Sorted(sn, sorted[..], |sn| - i)
    {
      BubblePass(sn, sorted, |sn| - i - 1);
      i := i + 1;
    }
  }

  /** Pipes go up with serials in dictionary order, and with discovery for equal ones. */
  predicate InSerialOrder(sn: seq<Serial>, pipe: seq<int>) {
    && |pipe| == |sn|
    && forall x, y :: 0 <= x < |sn| && 0 <= y < |sn| ==>
         (pipe[x] < pipe[y] <==> LexLess(sn[x], sn[y]) || (sn[x] == sn[y] && x < y))
  }

  lemma RanksFollowSerials(sn: seq<Serial>, pipe: seq<int>)
    requires PipesAreRanks(sn, pipe)
    ensures InSerialOrder(sn, pipe)
  {
    hide LexLess, Before, Earlier;
    forall x, y | 0 <= x < |sn| && 0 <= y < |sn|
      ensures pipe[x] < pipe[y] <==> LexLess(sn[x], sn[y]) || (sn[x] == sn[y] && x < y)
    {
      BeforeIsSmallerSerial(sn, x, y);
      RankGrows(sn, x, y);
      RankGrows(sn, y, x);
      BeforeOrder(sn, x, y, x);
    }
  }

  lemma BeforeIsSmallerSerial(sn: seq<Serial>, x: nat, y: nat)
    requires x < |sn| && y < |sn|
    ensures Before(sn, x, y) <==> LexLess(sn[x], sn[y]) || (sn[x] == sn[y] && x < y)
  {
    hide LexLess, StrCmp;
    StrCmpIsLexLess(sn[x], sn[y]);
    StrCmpOrder(sn[x], sn[y], []);
  }

  lemma RankGrows(sn: seq<Serial>, x: nat, y: nat)
    requires x < |sn| && y < |sn|
    ensures Before(sn, x, y) ==> |Earlier(sn, x)| < |Earlier(sn, y)|
  {
    hide Before;
    if Before(sn, x, y) {
      forall z: nat | z < |sn|
        ensures z in Earlier(sn, x) ==> z in Earlier(sn, y)
      {
        BeforeOrder(sn, z, x, y);
      }
      BeforeOrder(sn, x, y, y);
      var more := Earlier(sn, y) - Earlier(sn, x);
      assert x in more;
      assert Earlier(sn, y) == Earlier(sn, x) + more;
    }
  }

  /** MAIN RESULT. Sorting assigns pipes in dictionary order of the serials, one device to each
      pipe from 0 up. Ties between equal serials go to the device found first. */
  method UsbSortPipes(sn: seq<Serial>, pipe: array<int>)
    requires pipe.Length == |sn|
    modifies pipe
    ensures PipesAreRanks(sn, pipe[..]) && IsBijection(pipe[..], |sn|) && InSerialOrder(sn, pipe[..])
  {
    var sorted := new int[|sn|];
    SortDevices(sn, sorted);
    ghost var s := sorted[..];
    var p := 0;
    while p < |sn|
      invariant p <= |sn| && sorted[..] == s
      invariant forall k :: 0 <= k < p ==> pipe[s[k]] == k
    {
      pipe[sorted[p]] := p;
      p := p + 1;
    }
    InverseIsRank(sn, s, pipe[..]);
    RanksFollowSerials(sn, pipe[..]);
  }

  lemma InverseIsRank(sn: seq<Serial>, s: seq<int>, pipe: seq<int>)
    requires IsPermutation(s, |sn|) && Sorted(sn, s, 0) && |pipe| == |sn|
    requires forall k :: 0 <= k < |sn| ==> pipe[s[k]] == k
    ensures PipesAreRanks(sn, pipe) && IsBijection(pipe, |sn|)
  {
    hide Before, Sorted;
    forall x | 0 <= x < |sn|
      ensures 0 <= pipe[x] < |sn| && s[pipe[x]] == x && pipe[x] == |Earlier(sn, x)|
    {
      var q := PlaceOf(s, |sn|, x);
      PlaceIsRank(sn, s, q);
    }
    forall p | 0 <= p < |sn|
      ensures p in pipe
    {
      assert pipe[s[p]] == p;
    }
  }

  // ---------------------------------------------------------------------------
  // Listeners
  // ---------------------------------------------------------------------------

  datatype DeviceType = Caer | Meta

  datatype Worker = UsbListener(dev: nat) | UdpListener

  /** The camera types this build supports. */
  datatype Support = Support(caer: bool, meta: bool) {
    predicate Supports(t: DeviceType) {
      match t case Caer => caer case Meta => meta
    }
  }

  /** The threads created, in order: the pipe and the kind of listener. */
  type Threads = seq<(int, Worker)>

  function CountFor(t: Threads, p: int): nat {
    if t == [] then 0 else CountFor(t[..|t| - 1], p) + if t[|t| - 1].0 == p then 1 else 0
  }

  lemma CountSnoc(t: Threads, l: (int, Worker), p: int)
    ensures CountFor(t + [l], p) == CountFor(t, p) + if l.0 == p then 1 else 0
  {
    assert (t + [l])[..|t|] == t;
  }

  /** Pipe `p` belongs to one of the first `n` devices, of a supported type. */
  predicate ServedBy(types: seq<DeviceType>, pipe: seq<int>, sup: Support, n: nat, p: int)
    requires n <= |types| == |pipe|
  {
    exists d :: 0 <= d < n && pipe[d] == p && sup.Supports(types[d])
  }

  /** Pipe `p` gets exactly one listener when it is an input pipe beyond the devices, a UDP one, or
      that of a supported device, its own one; any other pipe gets none. */
  ghost predicate Started(types: seq<DeviceType>, pipe: seq<int>, sup: Support, pipeNumIn: nat, threads: Threads)
    requires |types| == |pipe|
  {
    && (forall p :: CountFor(threads, p) ==
          if |types| <= p < pipeNumIn || ServedBy(types, pipe, sup, |types|, p) then 1 else 0)
    && (forall d :: 0 <= d < |types| && sup.Supports(types[d]) ==> (pipe[d], UsbListener(d)) in threads)
    && (forall p :: |types| <= p < pipeNumIn ==> (p, UdpListener) in threads)
  }

  method StartListeners(types: seq<DeviceType>, pipe: seq<int>, sup: Support, pipeNumIn: nat)
    returns (threads: Threads)
    requires |types| == |pipe| && IsBijection(pipe, |types|)
    ensures Started(types, pipe, sup, pipeNumIn, threads)
  {
    threads := [];
    var dv := 0;
    while dv < |types|
      invariant dv <= |types|
      invariant forall p :: CountFor(threads, p) == if ServedBy(types, pipe, sup, dv, p) then 1 else 0
      invariant forall d :: 0 <= d < dv && sup.Supports(types[d]) ==> (pipe[d], UsbListener(d)) in threads
    {
      var before := threads;
      if sup.Supports(types[dv]) {
        threads := threads + [(pipe[dv], UsbListener(dv))];
      }
      forall p
        ensures CountFor(threads, p) == if ServedBy(types, pipe, sup, dv + 1, p) then 1 else 0
      {
        CountSnoc(before, (pipe[dv], UsbListener(dv)), p);
        ServedByNext(types, pipe, sup, dv, p);
      }
      dv := dv + 1;
    }
    var udp := |types|;
    while udp < pipeNumIn
      invariant |types| <= udp && (udp <= pipeNumIn || udp == |types|)
      invariant forall p :: CountFor(threads, p) ==
                  if |types| <= p < udp || ServedBy(types, pipe, sup, |types|, p) then 1 else 0
      invariant forall d :: 0 <= d < |types| && sup.Supports(types[d]) ==> (pipe[d], UsbListener(d)) in threads
      invariant forall p :: |types| <= p < udp ==> (p, UdpListener) in threads
    {
      var before := threads;
      threads := threads + [(udp, UdpListener)];
      forall p
        ensures CountFor(threads, p) ==
                if |types| <= p < udp + 1 || ServedBy(types, pipe, sup, |types|, p) then 1 else 0
      {
        CountSnoc(before, (udp, UdpListener), p);
      }
      udp := udp + 1;
    }
  }

  lemma ServedByNext(types: seq<DeviceType>, pipe: seq<int>, sup: Support, n: nat, p: int)
    requires n < |types| == |pipe| && IsBijection(pipe, |types|)
    ensures ServedBy(types, pipe, sup, n + 1, p) <==>
            ServedBy(types, pipe, sup, n, p) || (pipe[n] == p && sup.Supports(types[n]))
    ensures pipe[n] == p ==> !ServedBy(types, pipe, sup, n, p)
  {
  }

  /** Every input pipe has exactly one listener, and no other pipe has any. */
  ghost predicate ServedExactly(threads: Threads, pipeNumIn: nat) {
    forall p :: CountFor(threads, p) == if 0 <= p < pipeNumIn then 1 else 0
  }

  predicate AllSupported(types: seq<DeviceType>, sup: Support) {
    forall d: nat :: d < |types| ==> sup.Supports(types[d])
  }

  /** With supported devices only, the listeners are those of the input pipes, one each, exactly
      when there are no more devices than input pipes. */
  lemma EveryPipeServedIff(types: seq<DeviceType>, pipe: seq<int>, sup: Support, pipeNumIn: nat, threads: Threads)
    requires |types| == |pipe| && IsBijection(pipe, |types|) && AllSupported(types, sup)
    requires Started(types, pipe, sup, pipeNumIn, threads)
    ensures ServedExactly(threads, pipeNumIn) <==> |types| <= pipeNumIn
  {
    forall p
      ensures CountFor(threads, p) == if 0 <= p < |types| || 0 <= p < pipeNumIn then 1 else 0
    {
      if 0 <= p < |types| {
        assert p in pipe;
        var d :| 0 <= d < |pipe| && pipe[d] == p;
        assert sup.Supports(types[d]);
      }
    }
    if pipeNumIn < |types| {
      assert CountFor(threads, pipeNumIn) == 1;
    }
  }

  /** Two Prophesee cameras on a board with one input pipe: one of them is given a listener on
      pipe 1, whose buffer was never set up. */
  lemma TwoCamerasOnePipe(pipe: seq<int>, sup: Support, threads: Threads)
    requires sup.meta && IsBijection(pipe, 2) && Started([Meta, Meta], pipe, sup, 1, threads)
    ensures CountFor(threads, 1) == 1 && !ServedExactly(threads, 1)
  {
    EveryPipeServedIff([Meta, Meta], pipe, sup, 1, threads);
    assert 1 in pipe;
    var d :| 0 <= d < 2 && pipe[d] == 1;
    assert ServedBy([Meta, Meta], pipe, sup, 2, 1);
  }

  // ---------------------------------------------------------------------------
  // Surveying the devices
  // ---------------------------------------------------------------------------

  const HW_PIPES_NUM: nat := 2              // also the most devices that are discovered

  function AtMostTwo(found: seq<Serial>): seq<Serial> {
    if |found| <= HW_PIPES_NUM then found else found[..HW_PIPES_NUM]
  }

  /** The devices that discovery accepts: only of supported types, of one type at a time. */
  function Discovered(sup: Support, meta: seq<Serial>, caer: seq<Serial>): seq<Serial> {
    if sup.meta && meta != [] then AtMostTwo(meta) else if sup.caer then AtMostTwo(caer) else []
  }

  /** Discover one type of device. Cameras are not mixed: if there are devices already, or the
      build does not support the type, nothing is done. */
  method DiscoverType(t: DeviceType, supported: bool, found: seq<Serial>, types: seq<DeviceType>, sn: seq<Serial>)
    returns (types': seq<DeviceType>, sn': seq<Serial>)
    requires |types| == |sn| <= HW_PIPES_NUM
    ensures |types'| == |sn'| && types <= types'
    ensures sn' == if supported && sn == [] then AtMostTwo(found) else sn
    ensures forall d :: |types| <= d < |types'| ==> types'[d] == t
    ensures |types'| > |types| ==> supported
  {
    types', sn' := types, sn;
    if supported && |sn| == 0 {
      var v := 0;
      while v < |found| && |sn'| < HW_PIPES_NUM
        invariant v <= |found| && |sn'| <= HW_PIPES_NUM
        invariant sn' == found[..v] && |types'| == |sn'| && types <= types'
        invariant forall d :: |types| <= d < |types'| ==> types'[d] == t
      {
        types', sn' := types' + [t], sn' + [found[v]];
        v := v + 1;
      }
    }
  }

  /** MAIN RESULT. A survey of the devices, whatever is connected: their pipes are the ranks of
      their serials, and each input pipe has exactly one listener, and no other pipe any, exactly
      when no more devices are discovered than the board has input pipes. */
  method SurveyDevices(sup: Support, meta: seq<Serial>, caer: seq<Serial>, pipeNumIn: nat)
    returns (sn: seq<Serial>, pipe: array<int>, threads: Threads)
    ensures sn == Discovered(sup, meta, caer) && |sn| <= 2 && (|meta| >= 2 && sup.meta ==> |sn| == 2)
    ensures PipesAreRanks(sn, pipe[..]) && IsBijection(pipe[..], |sn|) && InSerialOrder(sn, pipe[..])
    ensures forall d :: 0 <= d < |sn| ==> (pipe[d], UsbListener(d)) in threads
    ensures forall p :: |sn| <= p < pipeNumIn ==> (p, UdpListener) in threads
    ensures ServedExactly(threads, pipeNumIn) <==> |sn| <= pipeNumIn
  {
    hide ServedExactly, CountFor, ServedBy, InSerialOrder;
    var types;
    types, sn := DiscoverType(Meta, sup.meta, meta, [], []);
    types, sn := DiscoverType(Caer, sup.caer, caer, types, sn);
    pipe := new int[|sn|];
    UsbSortPipes(sn, pipe);
    threads := StartListeners(types, pipe[..], sup, pipeNumIn);
    assert AllSupported(types, sup);
    EveryPipeServedIff(types, pipe[..], sup, pipeNumIn, threads);
  }
}
