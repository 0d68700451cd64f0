/** Model of `UStack<T>` (Unidirect/Helpers/UStack.cs): an array-backed stack that the
    runtime uses as an object pool.  `_freeIndex` is the number of stored items, `_size` the
    capacity of the backing array, and a push on a full, resizable stack first copies the
    items into a larger array.  C#'s `default(T)` has no Dafny counterpart, so every stack is
    given the value `blank` that stands for it. */
module Stacks {

  /** C#'s `x % y` on non-negative floats, in exact real arithmetic: the remainder left after
      taking out a whole number of `y`s. */
  function RealRem(x: real, y: real): (r: real)
    requires x >= 0.0 && y > 0.0
    ensures 0.0 <= r < y
    ensures (x - r) / y == ((x - r) / y).Floor as real
  {
    var q := (x / y).Floor as real;
    RemBounds(x, y, q);
    assert x - (x - q * y) == q * y;
    DivideBack(q, y);
    x - q * y
  }

  lemma MulMono(a: real, b: real, y: real)
    requires a <= b && y > 0.0
    ensures a * y <= b * y
  {
  }

  lemma MulStrict(a: real, b: real, y: real)
    requires a < b && y > 0.0
    ensures a * y < b * y
  {
  }

  lemma Quot(x: real, y: real)
    requires y > 0.0
    ensures x / y * y == x
  {
  }

  lemma DivideBack(q: real, y: real)
    requires y > 0.0
    ensures q * y / y == q
  {
  }

  /** Taking `q` whole `y`s out of `x`, where `q` is the floor of `x / y`, leaves less
      than one `y`. */
  lemma RemBounds(x: real, y: real, q: real)
    requires y > 0.0 && q <= x / y < q + 1.0
    ensures 0.0 <= x - q * y < y
  {
    var m := x / y;
    Quot(x, y);
    MulMono(q, m, y);
    MulStrict(m, q + 1.0, y);
    assert (q + 1.0) * y == q * y + y;
    assert q * y <= m * y;
    assert m * y == x;
    assert q * y <= x;
    assert x < q * y + y;
  }

  /** `_GetResizeSize`: `(int)(size + size * modifier % size)`, bumped by one when that
      leaves the size as it is. */
  function ResizeSize(size: int, modifier: real): (r: int)
    requires size > 0 && modifier > 0.0
    ensures size < r <= 2 * size
  {
    Grown(size, RealRem(size as real * modifier, size as real))
  }

  /** The last step of `_GetResizeSize`: truncate `size + rem` and make sure it moved. */
  function Grown(size: int, rem: real): (r: int)
    requires size > 0 && 0.0 <= rem < size as real
    ensures size < r <= 2 * size
  {
    var grown := (size as real + rem).Floor;
    if grown == size then grown + 1 else grown
  }

  /** With the default modifier 2.0 the remainder is zero, so the stack grows by exactly
      one slot, not twofold as the comment on `ResizeModifier` says. */
  lemma DefaultModifierGrowsByOne(size: int)
    requires size > 0
    ensures ResizeSize(size, 2.0) == size + 1
  {
    var y := size as real;
    var x := y * 2.0;
    assert x / y == 2.0;
    assert (x / y).Floor == 2;
    assert RealRem(x, y) == 0.0;
  }

  /** With the modifier 0.5 that the list and bus pools use, a stack of size n > 1 grows to
      n + n / 2 and a stack of size 1 grows to 2. */
  lemma HalfModifierGrowsByHalf(size: int)
    requires size > 0
    ensures ResizeSize(size, 0.5) == if size == 1 then 2 else size + size / 2
  {
    var x, y := size as real * 0.5, size as real;
    assert x / y == 0.5;
    assert RealRem(x, y) == x;
    var h := size / 2;
    if size % 2 == 0 {
      assert y + x == (size + h) as real;
    } else {
      assert (size + h) as real <= y + x < (size + h + 1) as real;
    }
  }

  /** `_GetResizeSize` as the comment on `ResizeModifier` describes it: the size scaled by the
      modifier, `*` where the code has `%`, and still at least one slot more. */
  function ScaledSize(size: int, modifier: real): (r: int)
    requires size > 0 && modifier > 0.0
    ensures r > size && r as real > size as real * modifier - 1.0
    ensures size as real * modifier >= (size + 1) as real ==> r as real <= size as real * modifier
  {
    var grown := (size as real * modifier).Floor;
    if grown > size then grown else size + 1
  }

  /** With the scaled size, the default modifier 2.0 doubles the stack, as documented. */
  lemma DefaultModifierDoubles(size: int)
    requires size > 0
    ensures ScaledSize(size, 2.0) == 2 * size
  {
  }

  /** The shortfall that `Allocate(num)` computes, `Available - num`, is handed to `_Resize`
      as the new size; `_Resize` copies `size` slots into it, which throws unless the new
      size is at least `size`.  This says when `Allocate` returns normally. */
  predicate AllocateReturns(size: int, count: int, num: int)
  {
    size - count >= num || num - (size - count) >= size
  }

  /** A stack of capacity 2 holding one item, asked to allocate 2 slots: the shortfall is 1,
      `_Resize(1)` copies 2 slots into an array of 1, and the call throws. */
  lemma AllocateShortfallThrows()
    ensures !AllocateReturns(2, 1, 2)
  {
  }

  class UStack<T> {
    /** `_storage`, `_freeIndex`, `_size`, `ResizeModifier`, `IsResizable`. */
    var storage: array<T>
    var freeIndex: int
    var size: int
    var resizeModifier: real
    var isResizable: bool
    /** The value C# writes as `default(T)`. */
    const blank: T

    ghost function Repr(): set<object>
      reads this
    {
      {this, storage}
    }

    ghost predicate Valid()
      reads this
    {
      storage.Length == size && 0 <= freeIndex <= size && size > 0 && resizeModifier > 0.0
    }

    /** The stored items, bottom first. */
    ghost function Items(): seq<T>
      reads this, storage
      requires Valid()
    {
      storage[..freeIndex]
    }

    /** Every slot of the backing array, free ones included. */
    ghost function Slots(): seq<T>
      reads this, storage
    {
      storage[..]
    }

    /** The constructor clamps a capacity <= 0 to 1 and a modifier <= 0 to 0.5. */
    constructor (capacity: int, resizeModifier: real, isResizable: bool, blank: T)
      ensures Valid() && fresh(Repr())
      ensures size == (if capacity > 0 then capacity else 1)
      ensures this.resizeModifier == (if resizeModifier <= 0.0 then 0.5 else resizeModifier)
      ensures this.isResizable == isResizable && this.blank == blank
      ensures Items() == [] && Slots() == seq(size, _ => blank)
    {
      this.isResizable := isResizable;
      this.resizeModifier := if resizeModifier <= 0.0 then 0.5 else resizeModifier;
      this.blank := blank;
      var cap := if capacity > 0 then capacity else 1;
      storage := new T[cap](_ => blank);
      size := cap;
      freeIndex := 0;
    }

    function Count(): (n: int)
      reads this, storage
      requires Valid()
      ensures n == |Items()|
    {
      freeIndex
    }

    function Available(): (n: int)
      reads this, storage
      requires Valid()
      ensures n + |Items()| == size && n >= 0
    {
      size - freeIndex
    }

    predicate IsEmpty()
      reads this, storage
      requires Valid()
      ensures IsEmpty() <==> Items() == []
    {
      freeIndex == 0
    }

    predicate IsFull()
      reads this, storage
      requires Valid()
      ensures IsFull() <==> |Items()| == size
    {
      freeIndex == size
    }

    /** `Push` (both overloads): fails only when the stack is full and not resizable;
        otherwise grows a full stack first and stores the item on top. */
    method Push(item: T) returns (ok: bool)
      requires Valid()
      modifies Repr()
      ensures Valid() && fresh(Repr() - old(Repr()))
      ensures resizeModifier == old(resizeModifier) && isResizable == old(isResizable)
      ensures ok <==> old(freeIndex) < old(size) || isResizable
      ensures ok ==> Items() == old(Items()) + [item]
      ensures size == if old(freeIndex) == old(size) && ok
                      then ResizeSize(old(size), resizeModifier) else old(size)
      ensures ok ==> Slots() == (old(Slots()) + seq(size - old(size), _ => blank))[old(freeIndex) := item]
      ensures !ok ==> storage == old(storage) && freeIndex == old(freeIndex) && Slots() == old(Slots())
    {
      if freeIndex == size {
        if !isResizable {
          return false;
        }
        Resize(ResizeSize(size, resizeModifier));
      }
      storage[freeIndex] := item;
      freeIndex := freeIndex + 1;
      ok := true;
    }

    /** `Pop`: hands back the top item; the slot itself is left as it is.  Popping an empty
        stack indexes the array at -1 in the source, so it is excluded. */
    method Pop() returns (x: T)
      requires Valid() && freeIndex > 0
      modifies this
      ensures Valid() && storage == old(storage) && size == old(size)
      ensures resizeModifier == old(resizeModifier) && isResizable == old(isResizable)
      ensures x == old(Items())[|old(Items())| - 1]
      ensures Items() == old(Items())[..|old(Items())| - 1]
    {
      freeIndex := freeIndex - 1;
      x := storage[freeIndex];
    }

    /** `Allocate(num)`: does nothing when `num` slots are free; otherwise resizes to the
        shortfall, which only returns when the shortfall is at least the current size. */
    method Allocate(num: int)
      requires Valid() && AllocateReturns(size, freeIndex, num)
      modifies this
      ensures Valid() && Items() == old(Items())
      ensures resizeModifier == old(resizeModifier) && isResizable == old(isResizable)
      ensures old(Available()) >= num ==> storage == old(storage) && size == old(size)
      ensures old(Available()) < num ==>
        fresh(storage) && size == num - old(Available())
        && Slots() == old(Slots()) + seq(size - old(size), _ => blank)
    {
      var allocNumSpots := Available() - num;
      if allocNumSpots < 0 {
        Resize(-allocNumSpots);
      }
    }

    /** `Allocate` as its comment describes it: afterwards at least `num` slots are free. */
    method AllocateFixed(num: int)
      requires Valid()
      modifies this
      ensures Valid() && Items() == old(Items()) && Available() >= num
      ensures resizeModifier == old(resizeModifier) && isResizable == old(isResizable)
      ensures old(Available()) >= num ==> storage == old(storage) && size == old(size)
    {
      var allocNumSpots := Available() - num;
      if allocNumSpots < 0 {
        Resize(size - allocNumSpots);
      }
    }

    /** `Clear`: writes `default(T)` into every slot and leaves the count as it is. */
    method Clear()
      requires Valid()
      modifies storage
      ensures Valid() && Slots() == seq(size, _ => blank)
      ensures Items() == seq(old(|Items()|), _ => blank)
    {
      forall i | 0 <= i < storage.Length {
        storage[i] := blank;
      }
    }

    /** `_Resize`: a fresh array of the new size holding the old slots. */
    method Resize(newSize: int)
      requires Valid() && newSize >= size
      modifies this
      ensures Valid() && fresh(storage) && size == newSize && freeIndex == old(freeIndex)
      ensures resizeModifier == old(resizeModifier) && isResizable == old(isResizable)
      ensures Slots() == old(Slots()) + seq(newSize - old(size), _ => blank)
    {
      var newOne := new T[newSize](_ => blank);
      forall i | 0 <= i < size {
        newOne[i] := storage[i];
      }
      storage := newOne;
      size := newSize;
    }
  }

  /** A push followed at once by a pop hands back the pushed item and leaves the stack as it
      was, on a stack that can take the push. */
  method PushThenPop<T>(s: UStack<T>, item: T) returns (x: T)
    requires s.Valid() && (s.isResizable || !s.IsFull())
    modifies s.Repr()
    ensures s.Valid() && x == item && s.Items() == old(s.Items())
  {
    var ok := s.Push(item);
    x := s.Pop();
  }

  /** Where `Allocate(num)` does return after resizing the stack, fewer
      than `num` slots are free afterwards: the new size is only the shortfall. */
  method AllocateLeavesTooFewSlots<T>(s: UStack<T>, num: int)
    requires s.Valid() && AllocateReturns(s.size, s.freeIndex, num)
    requires s.Available() < num
    modifies s
    ensures s.Valid() && s.Items() == old(s.Items()) && s.Available() < num
  {
    s.Allocate(num);
  }
}
