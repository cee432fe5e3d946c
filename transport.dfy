/** Index arithmetic of the skip buttons: next and previous move circularly
    through a playlist of `n` tracks.

    Two versions are kept. `JsNextIndex`/`JsPrevIndex` follow the handlers as
    written, over JavaScript numbers, where an empty playlist turns the index
    into NaN (next) or -1 (previous). `NextIndex`/`PrevIndex` are the guarded
    versions that leave the index alone on an empty playlist; the player uses
    these. On a non-empty playlist with a valid index the two agree. */
module Transport {

  /** The index rests at 0 while the playlist is empty and is a row otherwise. */
  predicate ValidIndex(i: nat, n: nat) {
    i < n || (n == 0 && i == 0)
  }

  /** Skip forward: the row after `i`, wrapping from the last row to the first. */
  function NextIndex(i: nat, n: nat): (r: nat)
    ensures ValidIndex(i, n) ==> ValidIndex(r, n)
    ensures n > 0 ==> r < n
  {
    if n == 0 then i else (i + 1) % n
  }

  /** Skip back: the row before `i`, wrapping from the first row to the last. */
  function PrevIndex(i: nat, n: nat): (r: nat)
    ensures ValidIndex(i, n) ==> ValidIndex(r, n)
  {
    if n == 0 then i else if i == 0 then n - 1 else i - 1
  }

  /** Growing the playlist never invalidates the index. */
  lemma ValidIndexGrows(i: nat, n: nat, m: nat)
    requires ValidIndex(i, n) && n <= m
    ensures ValidIndex(i, m)
  {
  }

  /** Going back undoes going forward. */
  lemma PrevAfterNext(i: nat, n: nat)
    requires ValidIndex(i, n)
    ensures PrevIndex(NextIndex(i, n), n) == i
  {
    if n > 0 {
      if i + 1 < n {
        assert (i + 1) % n == i + 1;
      } else {
        assert (i + 1) % n == 0;
      }
    }
  }

  /** Going forward undoes going back. */
  lemma NextAfterPrev(i: nat, n: nat)
    requires ValidIndex(i, n)
    ensures NextIndex(PrevIndex(i, n), n) == i
  {
    if n > 0 {
      if i == 0 {
        ModOfMultiplePlus(1, n, 0);
      } else {
        ModOfMultiplePlus(0, n, i);
      }
    }
  }

  /** The index after `k` presses of next. */
  function NextPresses(i: nat, n: nat, k: nat): nat {
    if k == 0 then i else NextIndex(NextPresses(i, n, k - 1), n)
  }

  /** The index after `k` presses of previous. */
  function PrevPresses(i: nat, n: nat, k: nat): nat {
    if k == 0 then i else PrevIndex(PrevPresses(i, n, k - 1), n)
  }

  lemma MulAtLeast(d: int, n: int)
    requires d >= 1 && n > 0
    ensures d * n >= n
  {
    assert d * n == (d - 1) * n + n;
  }

  lemma MulDistrib(q: int, p: int, n: int)
    ensures (q - p) * n == q * n - p * n
  {
  }

  /** Euclidean division is unique: q * n + r with 0 <= r < n leaves r. */
  lemma ModOfMultiplePlus(q: int, n: nat, r: int)
    requires n > 0 && 0 <= r < n
    ensures (q * n + r) % n == r
  {
    var a := q * n + r;
    var q', r' := a / n, a % n;
    assert a == q' * n + r';
    MulDistrib(q, q', n);
    MulDistrib(q', q, n);
    if q > q' {
      MulAtLeast(q - q', n);
    } else if q < q' {
      MulAtLeast(q' - q, n);
    }
  }

  /** One step of the modular count: ((a mod n) + 1) mod n == (a + 1) mod n. */
  lemma ModSucc(a: int, n: nat)
    requires n > 0
    ensures (a % n + 1) % n == (a + 1) % n
  {
    var q, r := a / n, a % n;
    assert a == q * n + r;
    if r + 1 < n {
      ModOfMultiplePlus(q, n, r + 1);
      ModOfMultiplePlus(0, n, r + 1);
    } else {
      MulDistrib(q + 1, 1, n);
      ModOfMultiplePlus(q + 1, n, 0);
      ModOfMultiplePlus(1, n, 0);
    }
  }

  /** One step back: (a mod n) - 1, wrapped from 0 to n - 1, is (a - 1) mod n. */
  lemma ModPred(a: int, n: nat)
    requires n > 0
    ensures (if a % n == 0 then n - 1 else a % n - 1) == (a - 1) % n
  {
    var q, r := a / n, a % n;
    assert a == q * n + r;
    if r == 0 {
      MulDistrib(q, 1, n);
      ModOfMultiplePlus(q - 1, n, n - 1);
    } else {
      ModOfMultiplePlus(q, n, r - 1);
    }
  }

  /** `k` presses of next from row `i` land on row (i + k) mod n. */
  lemma {:induction false} NextPressesModular(i: nat, n: nat, k: nat)
    requires i < n
    ensures NextPresses(i, n, k) == (i + k) % n
  {
    if k > 0 {
      NextPressesModular(i, n, k - 1);
      ModSucc(i + k - 1, n);
    }
  }

  /** `k` presses of previous from row `i` land on row (i - k) mod n. */
  lemma {:induction false} PrevPressesModular(i: nat, n: nat, k: nat)
    requires i < n
    ensures PrevPresses(i, n, k) == (i - k) % n
  {
    if k == 0 {
      ModOfMultiplePlus(0, n, i);
    } else {
      PrevPressesModular(i, n, k - 1);
      ModPred(i - (k - 1), n);
    }
  }

  /** `n` presses of next go once round the playlist. */
  lemma FullCircle(i: nat, n: nat)
    requires i < n
    ensures NextPresses(i, n, n) == i
  {
    NextPressesModular(i, n, n);
    ModOfMultiplePlus(1, n, i);
  }

  // ---- The handlers as written, over JavaScript numbers ----

  /** The JavaScript number held in the index slot: the handlers only ever
      produce integers or NaN. */
  datatype JsNumber = Num(v: int) | NaN

  /** JavaScript's `a % b` on integers: NaN when `b` is 0, otherwise the
      remainder of truncating division, which takes the sign of `a`. */
  function JsRem(a: int, b: nat): (r: JsNumber)
    ensures b == 0 <==> r == NaN
    ensures b > 0 ==> r.Num? && -(b as int) < r.v < b
    ensures b > 0 && a >= 0 ==> r.v >= 0
    ensures b > 0 && a <= 0 ==> r.v <= 0
    ensures b > 0 ==> (a - r.v) % b == 0
  {
    if b == 0 then NaN
    else
      var v := if a >= 0 then a % b else -((-a) % b);
      TruncatedRemainder(a, b, v);
      Num(v)
  }

  /** The remainder of truncating division leaves a multiple of the divisor. */
  lemma TruncatedRemainder(a: int, b: nat, v: int)
    requires b > 0 && v == (if a >= 0 then a % b else -((-a) % b))
    ensures -(b as int) < v < b && (a >= 0 ==> v >= 0) && (a <= 0 ==> v <= 0)
    ensures (a - v) % b == 0
  {
    var c := if a >= 0 then a else -a;
    var q, m := c / b, c % b;
    assert c == q * b + m;
    if a >= 0 {
      assert a - v == q * b + 0;
      ModOfMultiplePlus(q, b, 0);
    } else {
      assert a - v == (-q) * b + 0;
      ModOfMultiplePlus(-q, b, 0);
    }
  }

  /** `(prevIndex + 1) % tracks.length`, with NaN + 1 == NaN. */
  function JsNextIndex(idx: JsNumber, n: nat): (r: JsNumber)
    ensures n == 0 || idx == NaN ==> r == NaN
    ensures JsNamesTrack(idx, n) ==> JsNamesTrack(r, n)
  {
    match idx
    case NaN => NaN
    case Num(v) => JsRem(v + 1, n)
  }

  /** `prevIndex === 0 ? tracks.length - 1 : prevIndex - 1`; NaN === 0 is
      false and NaN - 1 is NaN. */
  function JsPrevIndex(idx: JsNumber, n: nat): (r: JsNumber)
    ensures idx == NaN ==> r == NaN
    ensures JsNamesTrack(idx, n) ==> JsNamesTrack(r, n)
    ensures n == 0 && idx.Num? ==> !JsNamesTrack(r, n)
  {
    match idx
    case NaN => NaN
    case Num(v) => if v == 0 then Num(n - 1) else Num(v - 1)
  }

  /** A press of a skip button, with the playlist length at that moment. */
  datatype Press = NextPress(len: nat) | PrevPress(len: nat)

  /** The index slot after a series of presses, as written. */
  function JsNavigate(idx: JsNumber, presses: seq<Press>): JsNumber
    decreases |presses|
  {
    if presses == [] then idx
    else
      var step := match presses[0]
        case NextPress(n) => JsNextIndex(idx, n)
        case PrevPress(n) => JsPrevIndex(idx, n);
      JsNavigate(step, presses[1..])
  }

  /** The same series of presses with the guarded arithmetic. */
  function Navigate(i: nat, presses: seq<Press>): nat
    decreases |presses|
  {
    if presses == [] then i
    else
      var step := match presses[0]
        case NextPress(n) => NextIndex(i, n)
        case PrevPress(n) => PrevIndex(i, n);
      Navigate(step, presses[1..])
  }

  /** `tracks[index]` names a track: a number that is a row of the playlist. */
  predicate JsNamesTrack(idx: JsNumber, n: nat) {
    idx.Num? && 0 <= idx.v < n
  }

  /** On a valid index of a non-empty playlist, as-written and guarded agree. */
  lemma JsAgreesOnValidIndex(i: nat, n: nat)
    requires i < n
    ensures JsNextIndex(Num(i), n) == Num(NextIndex(i, n))
    ensures JsPrevIndex(Num(i), n) == Num(PrevIndex(i, n))
  {
  }

  /** Once NaN, no series of presses gives a number again. */
  lemma {:induction false} JsNaNSticks(presses: seq<Press>)
    ensures JsNavigate(NaN, presses) == NaN
  {
    if presses != [] {
      JsNaNSticks(presses[1..]);
    }
  }

  /** As written: next on an empty playlist makes the index NaN, and whatever
      is uploaded and pressed afterwards, the index never names a track again. */
  lemma EmptyNextStrandsIndex(presses: seq<Press>)
    ensures JsNextIndex(Num(0), 0) == NaN
    ensures forall n: nat :: !JsNamesTrack(JsNavigate(JsNextIndex(Num(0), 0), presses), n)
  {
    JsNaNSticks(presses);
  }

  /** As written: previous on an empty playlist makes the index -1, which
      names no track of any playlist. */
  lemma EmptyPrevGoesNegative()
    ensures JsPrevIndex(Num(0), 0) == Num(-1)
    ensures forall n: nat :: !JsNamesTrack(JsPrevIndex(Num(0), 0), n)
  {
  }

  /** As written: two presses of previous on an empty playlist leave -2, and
      after an upload of two or more tracks next gives JavaScript's -1, which
      still names no track. */
  lemma TwoPrevsThenNext(n: nat)
    requires n >= 2
    ensures JsNavigate(Num(0), [PrevPress(0), PrevPress(0)]) == Num(-2)
    ensures JsNavigate(Num(0), [PrevPress(0), PrevPress(0), NextPress(n)]) == Num(-1)
    ensures !JsNamesTrack(JsNavigate(Num(0), [PrevPress(0), PrevPress(0), NextPress(n)]), n)
  {
    assert [PrevPress(0), PrevPress(0), NextPress(n)][1..] == [PrevPress(0), NextPress(n)];
    assert [PrevPress(0), NextPress(n)][1..] == [NextPress(n)];
    assert [PrevPress(0), PrevPress(0)][1..] == [PrevPress(0)];
    assert JsRem(-1, n) == Num(-1);
    assert JsNavigate(Num(-2), [NextPress(n)]) == JsNavigate(Num(-1), []);
    assert JsNavigate(Num(-1), [PrevPress(0), NextPress(n)]) == JsNavigate(Num(-2), [NextPress(n)]);
  }

  /** Guarded: through any series of presses on a playlist that only grows,
      the index stays valid. */
  lemma {:induction false} NavigateKeepsValid(i: nat, n: nat, presses: seq<Press>)
    requires ValidIndex(i, n)
    requires forall k :: 0 <= k < |presses| ==> n <= presses[k].len
    requires forall j, k :: 0 <= j < k < |presses| ==> presses[j].len <= presses[k].len
    ensures presses == [] ==> Navigate(i, presses) == i
    ensures presses != [] ==> ValidIndex(Navigate(i, presses), presses[|presses| - 1].len)
    decreases |presses|
  {
    if presses != [] {
      var m := presses[0].len;
      ValidIndexGrows(i, n, m);
      var step := match presses[0]
        case NextPress(n) => NextIndex(i, n)
        case PrevPress(n) => PrevIndex(i, n);
      assert ValidIndex(step, m);
      NavigateKeepsValid(step, m, presses[1..]);
    }
  }
}
