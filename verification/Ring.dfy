// Positions on a descriptor ring of 8 or 32 slots, for frames numbered from reset.
module Ring {
  predicate Size(n: nat) { n == 8 || n == 32 }

  // The slot that frame number k goes through.
  function SlotOf(size: nat, k: int): (j: nat)
    requires Size(size)
    ensures j < size
  {
    if size == 8 then k % 8 else k % 32
  }

  // How many slots after the slot of frame k slot j comes.
  function Ahead(size: nat, k: int, j: int): (a: nat)
    requires Size(size)
    ensures a < size
  {
    SlotOf(size, j - k)
  }

  lemma Remainder(size: nat, x: int, q: int, r: int)
    requires Size(size) && 0 <= r < size && x == if size == 8 then 8 * q + r else 32 * q + r
    ensures SlotOf(size, x) == r
  {
  }

  // Every number is a multiple of the size plus its slot.
  function Laps(size: nat, k: int): (q: int)
    requires Size(size)
    ensures k == (if size == 8 then 8 * q else 32 * q) + SlotOf(size, k)
  {
    if size == 8 then k / 8 else k / 32
  }

  lemma SlotIgnoresLaps(size: nat, k: int, j: int)
    requires Size(size)
    ensures SlotOf(size, SlotOf(size, k) + j) == SlotOf(size, k + j)
    ensures SlotOf(size, j - SlotOf(size, k)) == SlotOf(size, j - k)
  {
    hide SlotOf, Laps;
    var q := Laps(size, k);
    var r, p := SlotOf(size, k + j), Laps(size, k + j);
    Remainder(size, SlotOf(size, k) + j, p - q, r);
    var r', p' := SlotOf(size, j - k), Laps(size, j - k);
    Remainder(size, j - SlotOf(size, k), p' + q, r');
  }

  lemma SlotNext(size: nat, k: int)
    requires Size(size)
    ensures size == 8 ==> SlotOf(size, k + 1) == (SlotOf(size, k) + 1) % 8
    ensures size == 32 ==> SlotOf(size, k + 1) == (SlotOf(size, k) + 1) % 32
  {
    SlotIgnoresLaps(size, k, 1);
  }

  lemma SlotEqual(size: nat, k: int, n: int)
    requires Size(size) && k <= n <= k + size
    ensures SlotOf(size, k) == SlotOf(size, n) <==> n == k || n == k + size
  {
    hide SlotOf, Laps;
    var q, p := Laps(size, k), Laps(size, n);
    if n == k + size {
      Remainder(size, n, q + 1, SlotOf(size, k));
    } else if SlotOf(size, k) == SlotOf(size, n) {
      NoSharedLap(size, n - k, p - q);
    }
  }

  lemma NoSharedLap(size: nat, d: int, q: int)
    requires Size(size) && 0 <= d < size && d == if size == 8 then 8 * q else 32 * q
    ensures d == 0
  {
  }

  // Counting from frame k, frame k + i is i slots ahead.
  lemma AheadOfSlot(size: nat, k: int, i: nat)
    requires Size(size) && i < size
    ensures Ahead(size, k, SlotOf(size, k + i)) == i
  {
    SlotIgnoresLaps(size, k + i, -k);
    Remainder(size, i, 0, i);
  }

  lemma SlotOfAhead(size: nat, k: int, j: nat)
    requires Size(size) && j < size
    ensures SlotOf(size, k + Ahead(size, k, j)) == j
  {
    SlotIgnoresLaps(size, j - k, k);
    Remainder(size, j, 0, j);
  }

  lemma AheadNext(size: nat, k: int, j: nat)
    requires Size(size)
    ensures Ahead(size, k + 1, j) == if Ahead(size, k, j) == 0 then size - 1 else Ahead(size, k, j) - 1
  {
    hide SlotOf, Laps;
    var a, q := Ahead(size, k, j), Laps(size, j - k);
    if a == 0 {
      Remainder(size, j - (k + 1), q - 1, size - 1);
    } else {
      Remainder(size, j - (k + 1), q, a - 1);
    }
  }

  // Counting from a slot is counting from any frame that goes through it.
  lemma FromSlot(size: nat, k: int, j: int)
    requires Size(size)
    ensures Ahead(size, SlotOf(size, k), j) == Ahead(size, k, j)
    ensures SlotOf(size, SlotOf(size, k) + j) == SlotOf(size, k + j)
  {
    SlotIgnoresLaps(size, k, j);
  }
}
