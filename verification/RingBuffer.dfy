/**
 * The ring buffer of ring.c as it is: 32-bit indices that overflow, changed in place by one method per
 * atomic step. The ghost model has the indices without overflow; every method takes its step.
 */
module RingBuffer {
  import opened Bytes
  import opened RingModel

  /** The unsigned 32-bit difference of two indices. */
  function Diff(a: u32, b: u32): u32 {
    (a - b) % U32_SIZE
  }

  lemma WrapDiff(a: nat, b: nat)
    requires b <= a < b + U32_SIZE
    ensures Diff(a % U32_SIZE, b % U32_SIZE) == a - b
  {
    Diff32(a, b);
  }

  class Buffer<T> {
    const size: u32
    const divBlock: u32
    const data: array<T>
    var readerDataIdx: u32
    var readIdx: u32
    var readerExchangeIdx: u32
    var readCommitIdx: u32
    var last: u32
    var writerDataIdx: u32
    var writeIdx: u32
    var writerExchangeIdx: u32
    var writeCommitIdx: u32
    var syncReadIdx: u32
    var syncWriteIdx: u32
    ghost var model: Ring<T>

    ghost predicate Valid()
      reads this, data
    {
      && Inv(model) && model.size == size == data.Length && divBlock == size / 8 && model.data == data[..]
      && readerDataIdx == model.rData && writerDataIdx == model.wData && last == model.last
      && readIdx == model.r % U32_SIZE && readerExchangeIdx == model.rx % U32_SIZE && readCommitIdx == model.rc % U32_SIZE
      && writeIdx == model.w % U32_SIZE && writerExchangeIdx == model.wx % U32_SIZE && writeCommitIdx == model.wc % U32_SIZE
      && syncReadIdx == model.sr % U32_SIZE && syncWriteIdx == model.sw % U32_SIZE
    }

    constructor (data: array<T>)
      requires 0 < data.Length < U32_SIZE
      ensures Valid() && model == Init(data[..]) && this.data == data
    {
      this.data, size, divBlock := data, data.Length, data.Length / 8;
      readerDataIdx, readIdx, readerExchangeIdx, readCommitIdx, last := 0, 0, 0, 0, 0;
      writerDataIdx, writeIdx, writerExchangeIdx, writeCommitIdx := 0, 0, data.Length, 0;
      syncReadIdx, syncWriteIdx := 0, data.Length;
      model := Init(data[..]);
      InitInv(data[..]);
    }

    // -------------------------------------------------------------- ipx_ring_push

    /** The check without the mutex: is there known free space? */
    method BeginCheck() returns (ready: bool)
      requires Valid() && model.wpc.WCheck?
      modifies this`model
      ensures Valid() && model == WriterStep(old(model)) && ready == model.wpc.WStore?
    {
      hide Diff, Pos, Queue;
      WrapDiff(model.wx, model.w);
      WriterRefines(model);
      ready := Diff(writerExchangeIdx, writeIdx) > 0;
      model := WriterStep(model);
    }

    /** One round under the mutex; repeated until there is space. */
    method BeginSync() returns (ready: bool)
      requires Valid() && model.wpc.WSync?
      modifies this`model, this`writerExchangeIdx
      ensures Valid() && model == WriterStep(old(model)) && ready == model.wpc.WStore?
    {
      hide Diff, Pos, Queue;
      WrapDiff(model.sw, model.w);
      WriterRefines(model);
      writerExchangeIdx := syncWriteIdx;
      ready := Diff(writerExchangeIdx, writeIdx) != 0;
      model := WriterStep(model);
    }

    method Store(msg: T)
      requires Valid() && model.wpc == WStore(msg)
      modifies this`model, data
      ensures Valid() && model == WriterStep(old(model))
    {
      hide Diff, Pos, Queue;
      WriterRefines(model);
      data[writerDataIdx] := msg;
      model := WriterStep(model);
    }

    /** The atomic increment of the writer index. */
    method CommitAdd() returns (newIdx: u32, sync: bool)
      requires Valid() && model.wpc.WAdd?
      modifies this`model, this`writerDataIdx, this`writeIdx
      ensures Valid() && model == WriterStep(old(model))
      ensures sync == model.wpc.WPublish? && (sync ==> newIdx == model.wpc.newIdx % U32_SIZE)
    {
      hide Diff, Pos, Queue;
      WriterRefines(model);
      Add32(model.w, 1);
      WrapDiff(model.w + 1, model.wc);
      writerDataIdx := writerDataIdx + 1;
      if size == writerDataIdx {
        writerDataIdx := 0;
      }
      writeIdx := (writeIdx + 1) % U32_SIZE;
      newIdx := writeIdx;
      sync := Diff(newIdx, writeCommitIdx) >= divBlock;
      model := WriterStep(model);
    }

    method CommitSync(newIdx: u32)
      requires Valid() && model.wpc.WPublish? && newIdx == model.wpc.newIdx % U32_SIZE
      modifies this`model, this`syncReadIdx, this`writerExchangeIdx, this`writeCommitIdx
      ensures Valid() && model == WriterStep(old(model))
    {
      hide Diff, Pos, Queue;
      WriterRefines(model);
      syncReadIdx := newIdx;
      writerExchangeIdx := syncWriteIdx;
      writeCommitIdx := newIdx;
      model := WriterStep(model);
    }

    // -------------------------------------------------------------- ipx_ring_pop

    /** The previous message is done with; must the indices be exchanged? */
    method Advance() returns (sync: bool)
      requires Valid() && model.rpc.RIdle?
      modifies this`model, this`readerDataIdx, this`readIdx, this`last
      ensures Valid() && model == StartPop(old(model)) && sync == model.rpc.RPublish?
    {
      hide Diff, Pos, Queue;
      StartsRefine(model, model.data[0]);
      Add32(model.r, model.last);
      WrapDiff(model.r + model.last, model.rc);
      readIdx := (readIdx + last) % U32_SIZE;
      readerDataIdx := readerDataIdx + last;
      last := 0;
      if size == readerDataIdx {
        readerDataIdx := 0;
      }
      sync := Diff(readIdx, readCommitIdx) >= divBlock;
      model := StartPop(model);
    }

    method PopSync()
      requires Valid() && model.rpc.RPublish?
      modifies this`model, this`syncWriteIdx, this`readerExchangeIdx, this`readCommitIdx
      ensures Valid() && model == ReaderStep(old(model))
    {
      hide Diff, Pos, Queue;
      ReaderRefines(model);
      WrapDiff(model.r, model.rc);
      Add32(model.sw, model.r - model.rc);
      syncWriteIdx := (syncWriteIdx + Diff(readIdx, readCommitIdx)) % U32_SIZE;
      readerExchangeIdx := syncReadIdx;
      readCommitIdx := readIdx;
      model := ReaderStep(model);
    }

    method PopCheck() returns (ready: bool)
      requires Valid() && model.rpc.RCheck?
      modifies this`model
      ensures Valid() && model == ReaderStep(old(model)) && ready == model.rpc.RLoad?
    {
      hide Diff, Pos, Queue;
      ReaderRefines(model);
      WrapDiff(model.rx, model.r);
      ready := Diff(readerExchangeIdx, readIdx) > 0;
      model := ReaderStep(model);
    }

    /** After a signal or a timeout: has the writer synchronized? */
    method PopWait() returns (ready: bool)
      requires Valid() && model.rpc.RWait?
      modifies this`model, this`readerExchangeIdx
      ensures Valid() && model == ReaderStep(old(model)) && ready == model.rpc.RLoad?
    {
      hide Diff, Pos, Queue;
      ReaderRefines(model);
      WrapDiff(model.sr, model.r);
      readerExchangeIdx := syncReadIdx;
      ready := Diff(readerExchangeIdx, readIdx) > 0;
      model := ReaderStep(model);
    }

    /** Takes over the writer's own index. */
    method PopSteal() returns (ready: bool)
      requires Valid() && model.rpc.RSteal?
      modifies this`model, this`readerExchangeIdx, this`syncReadIdx
      ensures Valid() && model == ReaderStep(old(model)) && ready == model.rpc.RLoad?
    {
      hide Diff, Pos, Queue;
      ReaderRefines(model);
      WrapDiff(model.w, model.r);
      readerExchangeIdx := writeIdx;
      syncReadIdx := readerExchangeIdx;
      ready := Diff(readerExchangeIdx, readIdx) > 0;
      model := ReaderStep(model);
    }

    /** Returns the oldest message. */
    method Load() returns (msg: T)
      requires Valid() && model.rpc.RLoad?
      modifies this`model, this`last
      ensures Valid() && model == ReaderStep(old(model))
      ensures Queue(old(model)) == [msg] + Queue(model)
    {
      ReaderRefines(model);
      msg := data[readerDataIdx];
      last := 1;
      model := ReaderStep(model);
    }
  }
}
