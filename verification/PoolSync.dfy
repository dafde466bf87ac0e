/** The shared synchronisation struct of the worker pool, updated in place as
    the C code does while it holds the mutex. */
module PoolSync {
  import opened Options
  import opened Ring

  const DEFAULT_WORK_SIZE := 1024

  /** The struct a slot points to; allocated once, then overwritten. */
  class JobStruct<J> {
    var job: J

    constructor (job: J)
      ensures this.job == job
    {
      this.job := job;
    }
  }

  datatype Post = Rejected | OutOfArray | Posted

  class Sync<J> {
    var work: array<JobStruct?<J>>
    var workCount: nat
    var workReadIndex: nat
    var workWriteIndex: nat

    /** Different slots never share a struct. */
    ghost predicate Valid()
      reads this, work
    {
      && workReadIndex <= work.Length && workWriteIndex <= work.Length
      && forall i, j :: 0 <= i < j < work.Length && work[i] != null ==> work[i] != work[j]
    }

    ghost function Structs(): set<object>
      reads this, work
    {
      set i | 0 <= i < work.Length && work[i] != null :: work[i]
    }

    /** The ring this struct stands for. */
    ghost function Abs(): Ring<J>
      reads this, work, Structs()
    {
      Ring(seq(work.Length, i reads this, work, Structs() requires 0 <= i < work.Length =>
                 if work[i] == null then None else Some(work[i].job)),
           workReadIndex, workWriteIndex, workCount)
    }

    constructor (workSizeMax: nat)
      ensures Valid() && fresh(work)
      ensures Abs() == Start(if workSizeMax == 0 then DEFAULT_WORK_SIZE else workSizeMax)
    {
      var size := workSizeMax;
      if size == 0 {
        size := DEFAULT_WORK_SIZE;
      }
      work := new JobStruct?<J>[size](_ => null);
      workCount, workReadIndex, workWriteIndex := 0, 0, 0;
    }

    method SetNextReadIndex()
      requires Valid()
      modifies this`workReadIndex
      ensures workReadIndex == NextReadTable(old(workReadIndex), workWriteIndex, workCount, work.Length)
    {
      var readIndex, writeIndex, size := workReadIndex, workWriteIndex, work.Length;
      if readIndex < writeIndex {
        if readIndex + 1 < writeIndex {
          readIndex := readIndex + 1;
        } else {
          readIndex := writeIndex;
        }
        workReadIndex := readIndex;
      } else if readIndex > writeIndex || (readIndex == writeIndex && workCount > 0) {
        if readIndex + 1 < size {
          readIndex := readIndex + 1;
        } else if writeIndex > 0 {
          readIndex := 0;
        } else {
          readIndex := size;
        }
        workReadIndex := readIndex;
      }
    }

    method SetNextWriteIndex()
      requires Valid()
      modifies this`workWriteIndex
      ensures workWriteIndex == NextWriteWritten(workReadIndex, old(workWriteIndex), workCount, work.Length)
    {
      var readIndex, writeIndex, size := workReadIndex, workWriteIndex, work.Length;
      if writeIndex > readIndex || (writeIndex == readIndex && workCount == 0) {
        if writeIndex + 1 < size {
          writeIndex := writeIndex + 1;
        } else if readIndex > 0 {
          writeIndex := 0;
        } else {
          writeIndex := size;
        }
        workWriteIndex := writeIndex;
      }
      // The documented cases are exclusive, but this is a second `if`.
      if writeIndex < readIndex {
        if writeIndex + 1 < readIndex {
          writeIndex := writeIndex + 1;
        } else {
          writeIndex := readIndex;
        }
        workWriteIndex := writeIndex;
      }
    }

    /** The index the table wraps to 0 is wrapped in a local copy only. */
    method CheckReadIndex() returns (isChecked: bool)
      requires Valid()
      ensures isChecked == CheckReadTable(workReadIndex, workWriteIndex, workCount, work.Length).0
    {
      isChecked := false;
      var readIndex, writeIndex, size := workReadIndex, workWriteIndex, work.Length;
      if readIndex == writeIndex && workCount > 0 && readIndex < size {
        isChecked := true;
      } else if readIndex < writeIndex {
        isChecked := true;
      } else if readIndex > writeIndex {
        if readIndex < size {
          isChecked := true;
        } else if writeIndex > 0 {
          readIndex := 0;
          isChecked := true;
        }
      }
    }

    method CheckWriteIndex() returns (isChecked: bool)
      requires Valid()
      ensures isChecked == CheckWriteTable(workReadIndex, workWriteIndex, workCount, work.Length).0
    {
      isChecked := false;
      var readIndex, writeIndex, size := workReadIndex, workWriteIndex, work.Length;
      if writeIndex == readIndex && workCount == 0 && writeIndex < size {
        isChecked := true;
      } else if writeIndex > readIndex {
        if writeIndex < size {
          isChecked := true;
        } else if readIndex > 0 {
          writeIndex := 0;
          isChecked := true;
        }
      } else if writeIndex < readIndex {
        isChecked := true;
      }
    }

    /** The server posts a job: the slot's struct is allocated on first use and
        overwritten afterwards; no other struct is touched. */
    method SetWork(job: J) returns (post: Post)
      requires Valid()
      modifies this`workCount, this`workWriteIndex, work, Structs()
      ensures Valid() && fresh(Structs() - old(Structs()))
      ensures match Put(AsWritten, old(Abs()), job)
        case Refused => post == Rejected && Abs() == old(Abs())
        case Overrun => post == OutOfArray && Abs() == old(Abs())
        case Done(ring, slot) =>
          && post == Posted && Abs() == ring
          && (old(work[slot]) != null ==> work[slot] == old(work[slot]))
          && forall i :: 0 <= i < work.Length && i != slot ==> work[i] == old(work[i])
    {
      var isChecked := CheckWriteIndex();
      if !isChecked {
        return Rejected;
      }
      var slot := workWriteIndex;
      if slot >= work.Length {
        return OutOfArray;
      }
      if work[slot] != null {
        work[slot].job := job;
      } else {
        work[slot] := new JobStruct(job);
      }
      SetNextWriteIndex();
      workCount := workCount + 1;
      post := Posted;
    }

    /** A worker takes a job, after the wait loop: it receives the slot's own
        struct, not a copy. */
    method GetWork() returns (post: Post, got: JobStruct?<J>)
      requires Valid()
      modifies this`workCount, this`workReadIndex
      ensures Valid()
      ensures match Take(AsWritten, old(Abs()))
        case Refused => post == Rejected && Abs() == old(Abs())
        case Overrun => post == OutOfArray && Abs() == old(Abs())
        case Done(ring, slot) => post == Posted && Abs() == ring && got == work[slot]
    {
      got := null;
      if workCount == 0 {
        return Rejected, null;
      }
      var isChecked := CheckReadIndex();
      if !isChecked {
        return Rejected, null;
      }
      if workReadIndex >= work.Length {
        return OutOfArray, null;
      }
      got := work[workReadIndex];
      SetNextReadIndex();
      workCount := workCount - 1;
      post := Posted;
    }
  }
}
