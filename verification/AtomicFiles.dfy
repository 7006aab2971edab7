/**
 The write-to-temp-then-rename file protocol used by both persistent stores.

 A disk operation that fails or is cut short by a crash is an input: `steps` is the number of
 primitive disk operations that take effect (open-and-truncate the temp file, fill it, rename
 it over the published file). `WRITE_STEPS` or more means that nothing failed.
 */
module AtomicFiles {

  /** What a path holds. `Torn` is a file that was truncated and not completely written. */
  datatype Content<+T> = Missing | Torn | Whole(value: T)

  /** A published file together with its temp file. */
  datatype Slot<+T> = Slot(published: Content<T>, temp: Content<T>)

  const WRITE_STEPS: nat := 3

  /** The state of a file after the first `steps` primitive operations of writing `value` to it. */
  function WrittenUpTo<T>(f: Slot<T>, value: T, steps: nat): Slot<T> {
    if steps == 0 then f
    else if steps == 1 then f.(temp := Torn)
    else if steps == 2 then f.(temp := Whole(value))
    else Slot(Whole(value), Missing)
  }

  /** A write is all or nothing as far as a reader of the published path can tell. */
  lemma WriteIsAtomic<T>(f: Slot<T>, value: T, steps: nat)
    ensures steps < WRITE_STEPS ==> WrittenUpTo(f, value, steps).published == f.published
    ensures steps >= WRITE_STEPS ==> WrittenUpTo(f, value, steps).published == Whole(value)
    ensures f.published != Torn ==> WrittenUpTo(f, value, steps).published != Torn
  {
  }

  /** One published path and its temp path. */
  class AtomicFile<T> {
    var published: Content<T>
    var temp: Content<T>

    function State(): Slot<T>
      reads this
    {
      Slot(published, temp)
    }

    constructor ()
      ensures State() == Slot(Missing, Missing)
    {
      published, temp := Missing, Missing;
    }

    /** Fill the temp file, then rename it; stop at the first operation that fails. */
    method Write(value: T, steps: nat) returns (ok: bool)
      modifies this
      ensures State() == WrittenUpTo(old(State()), value, steps)
      ensures ok == (steps >= WRITE_STEPS)
    {
      if steps == 0 {
        return false;
      }
      temp := Torn;
      if steps == 1 {
        return false;
      }
      temp := Whole(value);
      if steps == 2 {
        return false;
      }
      published, temp := temp, Missing;
      return true;
    }
  }
}
