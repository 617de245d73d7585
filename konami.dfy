/**
 * The Konami-code easter egg: a keydown listener that keeps the most recent
 * key codes in a bounded buffer and fires when the buffer spells
 * up, up, down, down, left, right, left, right, B, A.
 */
module Konami {

  /** The key codes of the secret sequence, oldest first. */
  const KonamiSequence: seq<int> := [38, 38, 40, 40, 37, 39, 37, 39, 66, 65]

  /** The last `n` elements of `s`, or all of `s` when it is shorter. */
  function Recent(s: seq<int>, n: nat): (r: seq<int>)
    ensures |r| <= n && |r| <= |s|
  {
    if |s| <= n then s else s[|s| - n..]
  }

  /**
   * The buffer after one keydown: the code is pushed, and when the buffer
   * has grown past the length of the secret sequence its oldest code is
   * shifted out.
   */
  function Push(buffer: seq<int>, code: int): (r: seq<int>)
    ensures |buffer| <= |KonamiSequence| ==> |r| <= |KonamiSequence|
    ensures |r| > 0 && r[|r| - 1] == code
    ensures r == buffer + [code] || r == (buffer + [code])[1..]
  {
    var pushed := buffer + [code];
    if |pushed| > |KonamiSequence| then pushed[1..] else pushed
  }

  /** The buffer after the listener has seen `presses`, starting empty. */
  function BufferAfter(presses: seq<int>): seq<int>
  {
    if presses == [] then []
    else Push(BufferAfter(presses[..|presses| - 1]), presses[|presses| - 1])
  }

  /** Whether the keydown that ends `presses` fires the easter egg. */
  predicate TriggeredBy(presses: seq<int>)
  {
    BufferAfter(presses) == KonamiSequence
  }

  /** One keydown takes the window of recent codes to the window one press later. */
  lemma PushRecent(presses: seq<int>, code: int)
    ensures Push(Recent(presses, |KonamiSequence|), code) == Recent(presses + [code], |KonamiSequence|)
  {
    var n := |KonamiSequence|;
    var p := presses + [code];
    if |presses| >= n {
      var window := presses[|presses| - n..];
      assert (window + [code])[1..] == p[|p| - n..];
    }
  }

  /** The window of recent codes spells the secret sequence exactly when the last ten presses do. */
  lemma RecentIsSequence(presses: seq<int>)
    ensures Recent(presses, |KonamiSequence|) == KonamiSequence <==>
      |presses| >= |KonamiSequence| && presses[|presses| - |KonamiSequence|..] == KonamiSequence
  {
  }

  /** After any run of keydowns the buffer holds the last min(n, 10) codes, in press order. */
  lemma {:induction false} BufferIsRecentPresses(presses: seq<int>)
    ensures BufferAfter(presses) == Recent(presses, |KonamiSequence|)
    ensures |BufferAfter(presses)| == if |presses| < 10 then |presses| else 10
  {
    if presses != [] {
      var init := presses[..|presses| - 1];
      var last := presses[|presses| - 1];
      BufferIsRecentPresses(init);
      PushRecent(init, last);
      assert init + [last] == presses;
    }
  }

  /**
   * A keydown fires the easter egg exactly when the ten most recent codes
   * are the secret sequence; fewer than ten presses never fire it.
   */
  lemma TriggerIffRecentTen(presses: seq<int>)
    ensures TriggeredBy(presses) <==>
      |presses| >= |KonamiSequence| && presses[|presses| - |KonamiSequence|..] == KonamiSequence
    ensures |presses| < |KonamiSequence| ==> !TriggeredBy(presses)
  {
    BufferIsRecentPresses(presses);
    RecentIsSequence(presses);
  }

  /** B (code 65) occurs in the secret sequence only as its last code. */
  lemma OnlyLastIsB(j: int)
    requires 0 <= j < |KonamiSequence| - 1
    ensures KonamiSequence[j] != 65
  {
  }

  /**
   * The secret sequence does not overlap itself, so two firings are at
   * least ten keydowns apart: `n` and `m` are the numbers of presses after
   * which the two firings happen.
   */
  lemma {:induction false} FiringsTenApart(presses: seq<int>, n: nat, m: nat)
    requires n < m <= |presses|
    requires TriggeredBy(presses[..n]) && TriggeredBy(presses[..m])
    ensures m - n >= |KonamiSequence|
  {
    TriggerIffRecentTen(presses[..n]);
    TriggerIffRecentTen(presses[..m]);
    // The press that ended the first firing is a 65 (B); in the second window
    // only the newest code is a 65, so that press lies before the second window.
    assert presses[n - 1] == presses[..n][n - |KonamiSequence|..][9] == 65;
    forall i | m - |KonamiSequence| <= i < m - 1
      ensures presses[i] != 65
    {
      assert presses[i] == presses[..m][m - |KonamiSequence|..][i - (m - |KonamiSequence|)];
      OnlyLastIsB(i - (m - |KonamiSequence|));
    }
  }

  /** The keydown listener installed by the easter-egg initialiser. */
  class KonamiListener {
    /** The recent key codes, oldest first. */
    var buffer: seq<int>
    /** Every key code seen so far. */
    ghost var presses: seq<int>

    ghost predicate Valid()
      reads this
    {
      buffer == Recent(presses, |KonamiSequence|)
    }

    constructor ()
      ensures Valid() && presses == [] && buffer == []
    {
      buffer := [];
      presses := [];
    }

    /** Handles one keydown; `triggered` says whether the easter egg fires. */
    method KeyDown(code: int) returns (triggered: bool)
      requires Valid()
      modifies this
      ensures Valid()
      ensures presses == old(presses) + [code]
      ensures buffer == Push(old(buffer), code)
      ensures |buffer| <= |KonamiSequence|
      ensures triggered <==> |presses| >= |KonamiSequence| &&
                             presses[|presses| - |KonamiSequence|..] == KonamiSequence
    {
      buffer := buffer + [code];
      if |buffer| > |KonamiSequence| {
        buffer := buffer[1..];
      }
      PushRecent(presses, code);
      presses := presses + [code];
      RecentIsSequence(presses);
      triggered := buffer == KonamiSequence;
    }
  }
}
