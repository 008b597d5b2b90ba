// The replay window of crypto/ReplayProtector.h: 21 bits that stand for the set of
// all nonces ever accepted.  The words are numbers here, with the operations on
// their bits defined digit by digit.

module ReplayProtector {
  import opened Arithmetic

  const WORD: nat := 0x1_0000_0000

  // bitfield & (1 << i)
  predicate IsSet(bitfield: nat, i: nat) {
    if i == 0 then bitfield % 2 == 1 else IsSet(bitfield / 2, i - 1)
  }

  // bitfield | (1 << i)
  function Set(bitfield: nat, i: nat): nat {
    if i == 0 then bitfield / 2 * 2 + 1 else Set(bitfield / 2, i - 1) * 2 + bitfield % 2
  }

  // bitfield >> n
  function ShiftRight(bitfield: nat, n: nat): nat {
    if n == 0 then bitfield else ShiftRight(bitfield / 2, n - 1)
  }

  lemma {:induction false} SetBits(bitfield: nat, i: nat, j: nat)
    ensures IsSet(Set(bitfield, i), j) <==> j == i || IsSet(bitfield, j)
  {
    if i > 0 && j > 0 {
      SetBits(bitfield / 2, i - 1, j - 1);
    }
  }

  lemma {:induction false} ShiftedBits(bitfield: nat, n: nat, j: nat)
    ensures IsSet(ShiftRight(bitfield, n), j) <==> IsSet(bitfield, j + n)
  {
    if n > 0 {
      ShiftedBits(bitfield / 2, n - 1, j);
    }
  }

  // A number below a power of two has no bit at or above that position.
  lemma {:induction false} HighBitsAreClear(bitfield: nat, width: nat, j: nat)
    requires bitfield < Pow2(width) && j >= width
    ensures !IsSet(bitfield, j)
  {
    if width > 0 {
      HighBitsAreClear(bitfield / 2, width - 1, j - 1);
    } else if j > 0 {
      HighBitsAreClear(0, 0, j - 1);
    }
  }

  lemma {:induction false} SetStaysNarrow(bitfield: nat, i: nat, width: nat)
    requires bitfield < Pow2(width) && i < width
    ensures Set(bitfield, i) < Pow2(width)
  {
    if i > 0 {
      SetStaysNarrow(bitfield / 2, i - 1, width - 1);
    }
  }

  lemma {:induction false} ShiftStaysNarrow(bitfield: nat, n: nat)
    ensures ShiftRight(bitfield, n) <= bitfield
  {
    if n > 0 {
      ShiftStaysNarrow(bitfield / 2, n - 1);
    }
  }

  // ------------------------------------------------------------------- the window

  // The lowest nonce the window still knows about, and which of the 21 from there on
  // were seen.
  datatype Window = Window(baseOffset: nat, bitfield: nat)

  const CLEAR := Window(0, 0)

  function Check(w: Window, nonce: nat): (bool, Window) {
    if nonce < w.baseOffset then (false, w)
    else
      var offset := nonce - w.baseOffset;
      if offset > 20 then
        var kept := if offset > 51 then 0 else ShiftRight(w.bitfield, offset - 20);
        (true, Window(w.baseOffset + offset - 20, Set(kept, 20)))
      else if IsSet(w.bitfield, offset) then (false, w)
      else (true, w.(bitfield := Set(w.bitfield, offset)))
  }

  // The window stands for a set of nonces: bit i says whether base + i is in it, none
  // is above the window, and a window that has moved has its highest bit set.
  ghost predicate Represents(w: Window, accepted: set<nat>) {
    && w.bitfield < Pow2(21)
    && (forall i | 0 <= i <= 20 :: IsSet(w.bitfield, i) <==> w.baseOffset + i in accepted)
    && (forall n <- accepted :: n <= w.baseOffset + 20)
    && (w.baseOffset != 0 ==> w.baseOffset + 20 in accepted)
  }

  lemma ClearIsEmpty()
    ensures Represents(CLEAR, {})
  {
    forall i | 0 <= i <= 20
      ensures !IsSet(0, i)
    {
      HighBitsAreClear(0, 0, i);
    }
  }

  // A nonce is far behind when one at least 21 higher was accepted.
  ghost predicate IsFarBehind(accepted: set<nat>, nonce: nat) {
    exists n <- accepted :: nonce + 20 < n
  }

  // A nonce passes exactly when it was never accepted and is no more than 20 below
  // the highest that was; and the window goes on standing for what was accepted.
  lemma CheckMeans(w: Window, accepted: set<nat>, nonce: nat)
    requires Represents(w, accepted)
    ensures var (ok, after) := Check(w, nonce);
            && (ok <==> nonce !in accepted && !IsFarBehind(accepted, nonce))
            && Represents(after, if ok then accepted + {nonce} else accepted)
  {
    if nonce < w.baseOffset {
      assert w.baseOffset + 20 in accepted;
    } else {
      var offset := nonce - w.baseOffset;
      assert w.baseOffset + offset == nonce;
      if offset > 20 {
        SlideMeans(w, accepted, nonce);
      } else if !IsSet(w.bitfield, offset) {
        SetStaysNarrow(w.bitfield, offset, 21);
        forall i | 0 <= i <= 20
          ensures IsSet(Set(w.bitfield, offset), i) <==> w.baseOffset + i in accepted + {nonce}
        {
          SetBits(w.bitfield, offset, i);
        }
      }
    }
  }

  // Bit i of the window moved up by some steps was bit i + steps.
  lemma SlidBits(bitfield: nat, steps: nat, i: nat)
    requires bitfield < Pow2(21) && steps >= 1 && i <= 20
    ensures var kept := if steps > 31 then 0 else ShiftRight(bitfield, steps);
            && Set(kept, 20) < Pow2(21)
            && (IsSet(Set(kept, 20), i) <==> i == 20 || (i + steps <= 20 && IsSet(bitfield, i + steps)))
  {
    var kept := if steps > 31 then 0 else ShiftRight(bitfield, steps);
    ShiftStaysNarrow(bitfield, steps);
    SetStaysNarrow(kept, 20, 21);
    SetBits(kept, 20, i);
    ShiftedBits(bitfield, steps, i);
    HighBitsAreClear(0, 0, i);
    if i + steps > 20 {
      HighBitsAreClear(bitfield, 21, i + steps);
    }
  }

  lemma SlideMeans(w: Window, accepted: set<nat>, nonce: nat)
    requires Represents(w, accepted) && nonce > w.baseOffset + 20
    ensures Represents(Check(w, nonce).1, accepted + {nonce})
  {
    hide IsSet, Set, ShiftRight, Pow2;
    var steps := nonce - w.baseOffset - 20;
    var after := Check(w, nonce).1;
    SlidBits(w.bitfield, steps, 0);
    forall i | 0 <= i <= 20
      ensures IsSet(after.bitfield, i) <==> after.baseOffset + i in accepted + {nonce}
    {
      SlidBits(w.bitfield, steps, i);
      assert after.baseOffset + i == w.baseOffset + (i + steps);
    }
  }

  // ------------------------------------------------------------------ whole histories

  // The nonces accepted when these are checked one after the other.
  ghost function Accepted(nonces: seq<nat>): set<nat> {
    if nonces == [] then {}
    else
      var last := nonces[|nonces| - 1];
      Accepted(nonces[..|nonces| - 1]) + if Check(After(nonces[..|nonces| - 1]), last).0 then {last} else {}
  }

  function After(nonces: seq<nat>): Window {
    if nonces == [] then CLEAR else Check(After(nonces[..|nonces| - 1]), nonces[|nonces| - 1]).1
  }

  // After any calls at all, the window stands for what was accepted ...
  lemma {:induction false} HistoryIsRepresented(nonces: seq<nat>)
    ensures Represents(After(nonces), Accepted(nonces))
  {
    hide Check, Represents;
    if nonces == [] {
      ClearIsEmpty();
    } else {
      var before := nonces[..|nonces| - 1];
      HistoryIsRepresented(before);
      CheckMeans(After(before), Accepted(before), nonces[|nonces| - 1]);
      assert Accepted(before) + {} == Accepted(before);
    }
  }

  // ... and so the answer to one more call is exact.
  lemma HistoryDecides(nonces: seq<nat>, nonce: nat)
    ensures Check(After(nonces), nonce).0 <==> nonce !in Accepted(nonces) && !IsFarBehind(Accepted(nonces), nonce)
  {
    hide Check, Represents, After, Accepted;
    HistoryIsRepresented(nonces);
    CheckMeans(After(nonces), Accepted(nonces), nonce);
  }

  class ReplayProtector {
    var baseOffset: nat
    var bitfield: nat
    ghost var accepted: set<nat>  // since the last clear

    ghost predicate Valid()
      reads this
    {
      Represents(Window(baseOffset, bitfield), accepted)
    }

    constructor ()
      ensures Valid() && accepted == {} && Window(baseOffset, bitfield) == CLEAR
    {
      baseOffset, bitfield := 0, 0;
      accepted := {};
      new;
      ClearIsEmpty();
    }

    method Clear()
      modifies this
      ensures Valid() && accepted == {} && Window(baseOffset, bitfield) == CLEAR
    {
      baseOffset, bitfield := 0, 0;
      accepted := {};
      ClearIsEmpty();
    }

    // Both words stay in 32 bits.
    method CheckNonce(nonce: nat) returns (ok: bool)
      requires Valid() && nonce < WORD && baseOffset < WORD
      modifies this
      ensures Valid() && baseOffset < WORD && bitfield < WORD
      ensures ok <==> nonce !in old(accepted) && !IsFarBehind(old(accepted), nonce)
      ensures accepted == if ok then old(accepted) + {nonce} else old(accepted)
      ensures (ok, Window(baseOffset, bitfield)) == Check(old(Window(baseOffset, bitfield)), nonce)
    {
      hide Represents;
      CheckMeans(Window(baseOffset, bitfield), accepted, nonce);
      StaysInWord(Window(baseOffset, bitfield), accepted, nonce);
      if nonce < baseOffset {
        return false;
      }
      var offset := nonce - baseOffset;
      if offset > 20 {
        baseOffset := baseOffset + (offset - 20);
        bitfield := Set(if offset > 51 then 0 else ShiftRight(bitfield, offset - 20), 20);
        accepted := accepted + {nonce};
        return true;
      }
      if IsSet(bitfield, offset) {
        return false;
      }
      bitfield := Set(bitfield, offset);
      accepted := accepted + {nonce};
      ok := true;
    }
  }

  lemma StaysInWord(w: Window, accepted: set<nat>, nonce: nat)
    requires Represents(w, accepted)
    ensures w.bitfield < WORD && Check(w, nonce).1.bitfield < WORD
  {
    CheckMeans(w, accepted, nonce);
    assert Pow2(7) == 0x80;
    assert Pow2(14) == 0x4000;
    assert Pow2(21) == 0x20_0000;
  }
}
