/** Capture and extraction at work at the same time, each shard of the one connected by a pipe of bounded
    size to the same shard of the other, as src/extract.rs:254-268 has it in mind. Only the sizes of the
    markers and of their payloads matter here. */
module Migration {

  /** A marker and its payload, in bytes, and the shard they go to. */
  datatype Load = Load(marker: nat, payload: nat, to: nat) {
    function Size(): nat {
      marker + payload
    }
  }

  /** What capture writes, in order, and the pipes: `n` of them, of `capacity` bytes. */
  datatype Line = Line(plan: seq<Load>, n: nat, capacity: nat) {
    ghost predicate Valid() {
      capacity > 0 && forall l <- plan :: l.marker > 0 && l.to < n
    }

    /** The bytes of the first `k` loads that go to shard `i`. */
    function Before(i: nat, k: nat): nat
      requires k <= |plan|
    {
      if k == 0 then 0 else Before(i, k - 1) + if plan[k - 1].to == i then plan[k - 1].Size() else 0
    }

    /** The first load from `k` on that goes to shard `i`; `|plan|` when there is none. */
    function First(i: nat, k: nat): (f: nat)
      requires k <= |plan|
      ensures k <= f <= |plan| && (f < |plan| ==> plan[f].to == i) && Before(i, f) == Before(i, k)
      decreases |plan| - k
    {
      if k == |plan| || plan[k].to == i then k else First(i, k + 1)
    }

    lemma {:induction false} BeforeGrows(i: nat, a: nat, b: nat)
      requires a <= b <= |plan|
      ensures Before(i, a) <= Before(i, b)
    {
      if a == b {
      } else {
        BeforeGrows(i, a, b - 1);
      }
    }

    /** A load that goes to shard `i` and comes before `b` is among the bytes before `b`. */
    lemma LoadBefore(i: nat, a: nat, b: nat)
      requires a < b <= |plan| && plan[a].to == i
      ensures Before(i, a) + plan[a].Size() <= Before(i, b)
    {
      BeforeGrows(i, a + 1, b);
    }
  }

  // ---- the writer ----

  /** Capture has written `done` loads and `part` bytes of the next. */
  datatype Writer = Writer(done: nat, part: nat) {
    ghost predicate Valid(line: Line) {
      done <= |line.plan| && if done < |line.plan| then part < line.plan[done].Size() else part == 0
    }

    /** Once all is written, the pipes are closed. */
    predicate Closed(line: Line) {
      done == |line.plan|
    }

    function Sent(line: Line, i: nat): nat
      requires done <= |line.plan|
    {
      line.Before(i, done) + if done < |line.plan| && line.plan[done].to == i then part else 0
    }

    function Write(line: Line, m: nat): Writer
      requires done < |line.plan|
    {
      if part + m == line.plan[done].Size() then Writer(done + 1, 0) else Writer(done, part + m)
    }

    lemma WriteMeans(line: Line, m: nat, i: nat)
      requires line.Valid() && Valid(line) && done < |line.plan| && part + m <= line.plan[done].Size()
      ensures Write(line, m).Valid(line)
      ensures Write(line, m).Sent(line, i) == Sent(line, i) + if line.plan[done].to == i then m else 0
    {
      if done + 1 < |line.plan| {
        assert line.plan[done + 1] in line.plan;
      }
    }

    /** What has been sent lies between what is before the load at work and what is before the next. */
    lemma SentBounds(line: Line, i: nat, k: nat)
      requires Valid(line) && k <= |line.plan|
      ensures k <= done ==> line.Before(i, k) <= Sent(line, i)
      ensures k > done ==> Sent(line, i) <= line.Before(i, k)
    {
      if k <= done {
        line.BeforeGrows(i, k, done);
      } else {
        line.BeforeGrows(i, done + 1, k);
      }
    }
  }

  // ---- the first pass: the small-file shard is read to its end ----

  datatype PassStep = Writes(m: nat) | Reads(m: nat)

  /** Shard 0 is read, the others are not. `read` is how much of shard 0 has been read. */
  datatype FirstPass = FirstPass(w: Writer, read: nat) {
    ghost predicate Valid(line: Line) {
      && line.Valid() && w.Valid(line) && line.n > 0
      && read <= w.Sent(line, 0) <= read + line.capacity
      && forall i | 1 <= i < line.n :: w.Sent(line, i) <= line.capacity
    }

    /** The end of the shard is reached: its pipe is empty and closed. */
    predicate Ended(line: Line)
      requires w.done <= |line.plan|
    {
      w.Closed(line) && read == w.Sent(line, 0)
    }

    function Room(line: Line): int
      requires w.done < |line.plan|
    {
      var to := line.plan[w.done].to;
      line.capacity - (w.Sent(line, to) - if to == 0 then read else 0)
    }

    predicate CanStep(line: Line, step: PassStep) {
      && w.done <= |line.plan|
      && match step
         case Writes(m) => w.done < |line.plan| && 0 < m <= Room(line) && w.part + m <= line.plan[w.done].Size()
         case Reads(m) => 0 < m <= w.Sent(line, 0) - read
    }

    function Step(line: Line, step: PassStep): FirstPass
      requires CanStep(line, step)
    {
      match step
      case Writes(m) => FirstPass(w.Write(line, m), read)
      case Reads(m) => FirstPass(w, read + m)
    }

    predicate Blocked(line: Line)
      requires w.done <= |line.plan|
    {
      !Ended(line) && read == w.Sent(line, 0) && w.done < |line.plan| && Room(line) <= 0
    }

    lemma StepKeeps(line: Line, step: PassStep)
      requires Valid(line) && CanStep(line, step)
      ensures Step(line, step).Valid(line)
    {
      if step.Writes? {
        forall i ensures
          w.Write(line, step.m).Sent(line, i) == w.Sent(line, i) + if line.plan[w.done].to == i then step.m else 0
        {
          w.WriteMeans(line, step.m, i);
        }
        w.WriteMeans(line, step.m, 0);
      }
    }

    /** The pass goes on until it has ended or is blocked. */
    lemma GoesOn(line: Line)
      requires Valid(line) && !Ended(line) && !Blocked(line)
      ensures CanStep(line, Writes(1)) || CanStep(line, Reads(1))
    {
    }

    /** Once it is blocked it stays so. */
    lemma BlockedForEver(line: Line, step: PassStep)
      requires Valid(line) && Blocked(line)
      ensures !CanStep(line, step)
    {
    }

    /** It is not blocked when every main shard fits its pipe, and does not end when one does not. What blocks
        it are the loads up to the one at hand. */
    lemma EndsOnlyIfFits(line: Line)
      requires Valid(line)
      ensures Blocked(line) ==> !Fits(line)
      ensures Blocked(line) ==> line.plan[w.done].to > 0 && line.Before(line.plan[w.done].to, w.done + 1) > line.capacity
      ensures Ended(line) ==> Fits(line)
    {
      if Blocked(line) {
        var l := line.plan[w.done];
        assert l in line.plan;
        line.LoadBefore(l.to, w.done, |line.plan|);
      }
      if Ended(line) {
        forall i | 1 <= i < line.n ensures line.Before(i, |line.plan|) <= line.capacity {
          assert w.Sent(line, i) <= line.capacity;
        }
      }
    }
  }

  /** All that goes to any one main shard fits its pipe. */
  predicate Fits(line: Line) {
    forall i | 1 <= i < line.n :: line.Before(i, |line.plan|) <= line.capacity
  }

  /** Both ends run, in any order and by any amounts, until neither can go on. The main shards are not read
      before the small-file shard has ended, and that is when capture is done. */
  method RunFirstPass(line: Line) returns (s: FirstPass)
    requires line.Valid() && line.n > 0
    ensures s.Valid(line) && s.Ended(line) == Fits(line) && s.Blocked(line) == !Fits(line)
  {
    assert line.plan != [] ==> line.plan[0] in line.plan;
    s := FirstPass(Writer(0, 0), 0);
    while !s.Ended(line) && !s.Blocked(line)
      invariant s.Valid(line)
      decreases |line.plan| - s.w.done,
                (if s.w.done < |line.plan| then line.plan[s.w.done].Size() - s.w.part else 0),
                s.w.Sent(line, 0) - s.read
    {
      s.GoesOn(line);
      var step: PassStep :| s.CanStep(line, step);
      s.StepKeeps(line, step);
      s := s.Step(line, step);
    }
    s.EndsOnlyIfFits(line);
  }

  // ---- the main pass: the shards are read as `get_next_readable_shard` picks them ----

  /** Where a shard is, as in the module Extract, with what has been read of the load at hand. Load `k` is
      the one whose marker is pending. */
  datatype Place = Waiting | Readable | Pending(k: nat) | Finished | Marking(got: nat) | Copying(got: nat) {
    predicate InHand() {
      Marking? || Copying?
    }

    function Weight(): nat {
      match this
      case Waiting => 4
      case Readable => 3
      case Marking(_) => 2
      case Pending(_) => 1
      case Copying(_) => 0
      case Finished => 0
    }
  }

  /** What extraction is about: picking a shard, looking for a marker that is due, or reading a shard. */
  datatype Mode = Choosing | Settling | Busy(i: nat)

  /** `Write` and `Take` move bytes; a read that asks for more than there is takes what there is and waits. */
  datatype Action = Write(m: nat) | Poll | Pick(i: nat) | Take(m: nat) | End | Due(i: nat) | Settle | Copied

  datatype System = System(w: Writer, places: seq<Place>, next: nat, mode: Mode) {
    /** What has been read of shard `i`. */
    function Consumed(line: Line, i: nat): nat
      requires i < |places| && next <= |line.plan|
    {
      match places[i]
      case Pending(k) => if k < |line.plan| then line.Before(i, k) + line.plan[k].marker else 0
      case Marking(got) => line.Before(i, next) + got
      case Copying(got) => if next < |line.plan| then line.Before(i, next) + line.plan[next].marker + got else 0
      case _ => line.Before(i, next)
    }

    function InPipe(line: Line, i: nat): int
      requires i < |places| && next <= |line.plan| && w.done <= |line.plan|
    {
      w.Sent(line, i) - Consumed(line, i)
    }

    /** `poll()` would report shard `i`. */
    predicate Ready(line: Line, i: nat)
      requires i < |places| && next <= |line.plan| && w.done <= |line.plan|
    {
      InPipe(line, i) > 0 || w.Closed(line)
    }

    predicate Sized(line: Line) {
      |places| == line.n && next <= |line.plan| && w.done <= |line.plan|
    }

    predicate NoneReadable() {
      Readable !in places
    }

    /** Shard `i` is the only one that is waiting. */
    predicate WaitsAlone(i: nat) {
      i < |places| && places[i] == Waiting && forall j | 0 <= j < |places| && j != i :: places[j] != Waiting
    }

    // ---- steps ----

    predicate Enabled(line: Line, a: Action)
      requires Sized(line)
    {
      match a
      case Write(m) =>
        && w.done < |line.plan| && line.plan[w.done].to < |places|
        && 0 < m <= line.capacity - InPipe(line, line.plan[w.done].to) && w.part + m <= line.plan[w.done].Size()
      case Poll =>
        && mode == Choosing && NoneReadable()
        && exists i | 0 <= i < |places| :: places[i] == Waiting && !WaitsAlone(i) && Ready(line, i)
      case Pick(i) =>
        mode == Choosing && i < |places| && (places[i] == Readable || (NoneReadable() && WaitsAlone(i)))
      case Take(m) =>
        && mode.Busy? && mode.i < |places| && 0 < m <= InPipe(line, mode.i)
        && (match places[mode.i]
            case Marking(got) =>
              var k := line.First(mode.i, next);
              k < |line.plan| && got + m <= line.plan[k].marker
            case Copying(got) => next < |line.plan| && got + m <= line.plan[next].payload
            case _ => false)
      case End =>
        mode.Busy? && mode.i < |places| && places[mode.i] == Marking(0) && InPipe(line, mode.i) == 0 && w.Closed(line)
      case Due(i) => mode == Settling && i < |places| && places[i] == Pending(next)
      case Settle => mode == Settling && Pending(next) !in places
      case Copied =>
        && mode.Busy? && mode.i < |places| && next < |line.plan|
        && places[mode.i] == Copying(line.plan[next].payload)
    }

    function After(line: Line, a: Action): System
      requires Sized(line) && Enabled(line, a)
    {
      match a
      case Write(m) => this.(w := w.Write(line, m))
      case Poll =>
        this.(places := seq(|places|, i requires 0 <= i < |places| =>
          if places[i] == Waiting && Ready(line, i) then Readable else places[i]))
      case Pick(i) => this.(places := places[i := Marking(0)], mode := Busy(i))
      case Take(m) =>
        (match places[mode.i]
         case Marking(got) =>
           var k := line.First(mode.i, next);
           if got + m == line.plan[k].marker then this.(places := places[mode.i := Pending(k)], mode := Settling)
           else this.(places := places[mode.i := Marking(got + m)])
         case Copying(got) => this.(places := places[mode.i := Copying(got + m)]))
      case End => this.(places := places[mode.i := Finished], mode := Choosing)
      case Due(i) => this.(places := places[i := Copying(0)], mode := Busy(i))
      case Settle => this.(mode := Choosing)
      case Copied => this.(places := places[mode.i := Waiting], next := next + 1, mode := Settling)
    }

    // ---- what every step keeps ----

    /** Shard `i` is read by a call that may wait although nothing has been reported of it: it is the only one
        left to read. */
    predicate Alone(i: nat) {
      forall j | 0 <= j < |places| && j != i :: places[j] != Waiting && places[j] != Readable
    }

    ghost predicate PlaceValid(line: Line, i: nat)
      requires Sized(line) && i < |places|
    {
      match places[i]
      case Waiting => true
      case Readable => Ready(line, i)
      case Pending(k) => k < |line.plan| && line.First(i, next) == k && (k == next ==> mode == Settling)
      case Finished => w.Closed(line) && line.First(i, next) == |line.plan|
      case Marking(got) =>
        var k := line.First(i, next);
        && mode == Busy(i) && (if k < |line.plan| then got < line.plan[k].marker else got == 0)
        && (got > 0 || Ready(line, i) || Alone(i))
      case Copying(got) =>
        mode == Busy(i) && next < |line.plan| && line.plan[next].to == i && got <= line.plan[next].payload
    }

    ghost predicate ShardValid(line: Line, i: nat)
      requires Sized(line) && i < |places|
    {
      PlaceValid(line, i) && 0 <= InPipe(line, i) <= line.capacity
    }

    ghost predicate Valid(line: Line) {
      && line.Valid() && Sized(line) && w.Valid(line) && (forall l <- line.plan :: l.to > 0) && line.n > 1
      && places[0] == Finished && (mode.Busy? ==> 1 <= mode.i < line.n && places[mode.i].InHand())
      && forall i | 1 <= i < line.n :: ShardValid(line, i)
    }

    lemma MoreIsWritten(that: System, line: Line, m: nat, i: nat)
      requires line.Valid() && w.Valid(line) && Sized(line) && Enabled(line, Write(m)) && that == After(line, Write(m))
      requires 1 <= i < |places| && ShardValid(line, i)
      ensures that.Sized(line) && that.ShardValid(line, i)
    {
      w.WriteMeans(line, m, i);
      assert that.Consumed(line, i) == Consumed(line, i);
    }

    lemma WriteKeeps(line: Line, m: nat)
      requires Valid(line) && Enabled(line, Write(m))
      ensures After(line, Write(m)).Valid(line)
    {
      var that := After(line, Write(m));
      w.WriteMeans(line, m, 0);
      forall i | 1 <= i < line.n ensures that.ShardValid(line, i) {
        assert ShardValid(line, i);
        MoreIsWritten(that, line, m, i);
      }
    }

    lemma PollKeeps(line: Line)
      requires Valid(line) && Enabled(line, Poll)
      ensures After(line, Poll).Valid(line)
    {
      var that := After(line, Poll);
      forall i | 1 <= i < line.n ensures that.ShardValid(line, i) {
        assert ShardValid(line, i);
      }
    }

    /** A shard that is not in hand is as it was. */
    lemma Stays(that: System, line: Line, j: nat)
      requires Sized(line) && that.Sized(line) && j < |places| && ShardValid(line, j) && !places[j].InHand()
      requires that.w == w && that.next == next && that.places[j] == places[j]
      requires places[j] == Pending(next) ==> that.mode == Settling
      ensures that.ShardValid(line, j)
    {
    }

    /** Nor are the shards but `i` when `i` is in hand. */
    lemma OthersStay(that: System, line: Line, i: nat)
      requires Valid(line) && that.Sized(line) && i < |places| && that.w == w && that.next == next
      requires mode.Busy? ==> mode.i == i
      requires forall j | 0 <= j < |places| && j != i :: that.places[j] == places[j]
      requires mode == Settling ==> forall j | 1 <= j < |places| && j != i :: places[j] != Pending(next)
      ensures forall j | 1 <= j < |places| && j != i :: that.ShardValid(line, j)
    {
      forall j | 1 <= j < |places| && j != i ensures that.ShardValid(line, j) {
        assert ShardValid(line, j);
        Stays(that, line, j);
      }
    }

    lemma PickKeeps(line: Line, i: nat)
      requires Valid(line) && Enabled(line, Pick(i))
      ensures After(line, Pick(i)).Valid(line)
    {
      var that := After(line, Pick(i));
      OthersStay(that, line, i);
      assert ShardValid(line, i);
      var k := line.First(i, next);
      assert k < |line.plan| ==> line.plan[k] in line.plan;
      assert that.ShardValid(line, i);
    }

    lemma TakeKeeps(line: Line, m: nat)
      requires Valid(line) && Enabled(line, Take(m))
      ensures After(line, Take(m)).Valid(line)
    {
      var that, i := After(line, Take(m)), mode.i;
      OthersStay(that, line, i);
      assert ShardValid(line, i);
      assert that.ShardValid(line, i);
    }

    lemma EndKeeps(line: Line)
      requires Valid(line) && Enabled(line, End)
      ensures After(line, End).Valid(line)
    {
      var that, i := After(line, End), mode.i;
      OthersStay(that, line, i);
      assert ShardValid(line, i);
      var k := line.First(i, next);
      assert k < |line.plan| ==> line.plan[k] in line.plan;
      if k < |line.plan| {
        line.LoadBefore(i, k, |line.plan|);
      }
      assert that.ShardValid(line, i);
    }

    lemma DueKeeps(line: Line, i: nat)
      requires Valid(line) && Enabled(line, Due(i))
      ensures After(line, Due(i)).Valid(line)
    {
      var that := After(line, Due(i));
      assert ShardValid(line, i);
      forall j | 1 <= j < |places| && j != i ensures places[j] != Pending(next) {
        assert ShardValid(line, j);
      }
      OthersStay(that, line, i);
      assert that.ShardValid(line, i);
    }

    lemma SettleKeeps(line: Line)
      requires Valid(line) && Enabled(line, Settle)
      ensures After(line, Settle).Valid(line)
    {
      forall j | 1 <= j < |places| ensures places[j] != Pending(next) {
        assert places[j] in places;
      }
      OthersStay(After(line, Settle), line, 0);
    }

    /** The next load is done: for the other shards nothing changes. */
    lemma NextIsElsewhere(that: System, line: Line, j: nat)
      requires Sized(line) && that.Sized(line) && j < |places| && ShardValid(line, j) && !places[j].InHand()
      requires that.w == w && that.next == next + 1 && that.places[j] == places[j] && that.mode == Settling
      requires line.plan[next].to != j
      ensures that.ShardValid(line, j)
    {
    }

    lemma CopiedKeeps(line: Line)
      requires Valid(line) && Enabled(line, Copied)
      ensures After(line, Copied).Valid(line)
    {
      var that, i := After(line, Copied), mode.i;
      assert ShardValid(line, i);
      forall j | 1 <= j < line.n ensures that.ShardValid(line, j) {
        assert ShardValid(line, j);
        if j != i {
          NextIsElsewhere(that, line, j);
        }
      }
    }

    // ---- no deadlock ----

    lemma At(line: Line, i: nat)
      requires Valid(line) && 1 <= i < line.n
      ensures ShardValid(line, i) && places[i] in places
    {
    }

    /** `get_next_readable_shard` returns `None`. */
    predicate Done() {
      mode == Choosing && Waiting !in places && Readable !in places
    }

    /** Then everything has been written and read. */
    lemma DoneIsComplete(line: Line)
      requires Valid(line) && Done()
      ensures next == |line.plan| && w.Closed(line) && forall i | 1 <= i < line.n :: places[i] == Finished
    {
      if next < |line.plan| {
        var t := line.plan[next].to;
        assert line.plan[next] in line.plan;
        At(line, t);
        assert false;
      }
      forall i | 1 <= i < line.n ensures places[i] == Finished && w.Closed(line) {
        At(line, i);
      }
      assert places[1] == Finished;
    }

    lemma AllRead(line: Line, i: nat)
      requires Valid(line) && 1 <= i < line.n && places[i] == Finished && next == |line.plan| && w.Closed(line)
      ensures InPipe(line, i) == 0
    {
    }

    /** A load whose marker is pending but not due has the next load before it, which is written in full. */
    lemma NextIsWritten(line: Line, j: nat)
      requires Valid(line) && 1 <= j < line.n && places[j].Pending? && mode != Settling
      ensures next < w.done
    {
      assert ShardValid(line, j);
      var k := places[j].k;
      assert line.plan[k] in line.plan;
      w.SentBounds(line, j, k);
    }

    /** The shard of the next load, once that is written, has something to read or is at work on it. */
    lemma NextIsThere(line: Line)
      requires Valid(line) && next < w.done && mode != Settling
      ensures var t := line.plan[next].to;
              && 1 <= t < line.n
              && match places[t]
                 case Waiting => InPipe(line, t) > 0
                 case Readable => true
                 case Marking(_) => InPipe(line, t) > 0
                 case Copying(_) => true
                 case _ => false
    {
      var l := line.plan[next];
      assert l in line.plan && ShardValid(line, l.to);
      line.LoadBefore(l.to, next, w.done);
      w.SentBounds(line, l.to, w.done);
    }

    /** While shard `i` is read and has nothing, a load that is at hand there is the one being written. */
    lemma HandIsWritten(line: Line, i: nat, k: nat, got: nat)
      requires Valid(line) && 1 <= i < line.n && k < |line.plan| && line.plan[k].to == i
      requires InPipe(line, i) == 0 && Consumed(line, i) == line.Before(i, k) + got && 0 < got < line.plan[k].Size()
      ensures k == w.done
    {
      w.SentBounds(line, i, k);
      if k < w.done {
        line.LoadBefore(i, k, w.done);
        w.SentBounds(line, i, w.done);
      }
    }

    /** When nothing can be read, what capture has at hand fits: its pipe is not full. */
    lemma WriterGoes(line: Line)
      requires Valid(line) && !w.Closed(line) && mode != Settling
      requires mode == Choosing ==> Readable !in places && forall i | 1 <= i < line.n :: places[i] == Waiting ==> !Ready(line, i)
      requires mode.Busy? ==> InPipe(line, mode.i) == 0 && places[mode.i] != Copying(if next < |line.plan| then line.plan[next].payload else 0)
      ensures Enabled(line, Write(1))
    {
      var l := line.plan[w.done];
      var j := l.to;
      assert l in line.plan;
      At(line, j);
      if InPipe(line, j) == line.capacity {
        if mode.Busy? {
          BusyWriterGoes(line, j);
        } else {
          NextIsWritten(line, j);
          NextIsThere(line);
          At(line, line.plan[next].to);
        }
        assert false;
      }
    }

    lemma BusyWriterGoes(line: Line, j: nat)
      requires Valid(line) && w.done < |line.plan| && mode.Busy? && InPipe(line, mode.i) == 0
      requires places[mode.i] != Copying(if next < |line.plan| then line.plan[next].payload else 0)
      requires line.plan[w.done].to == j && 1 <= j < line.n && InPipe(line, j) == line.capacity
      ensures false
    {
      var i := mode.i;
      assert ShardValid(line, i) && ShardValid(line, j);
      match places[i] {
        case Copying(got) =>
          HandIsWritten(line, i, next, line.plan[next].marker + got);
        case Marking(got) =>
          if got > 0 {
            HandIsWritten(line, i, line.First(i, next), got);
          } else {
            NextIsWritten(line, j);
            NextIsThere(line);
            At(line, line.plan[next].to);
          }
      }
    }

    /** There is no deadlock: until all is done, one end or the other can go on, and also where a single shard
        that is not ready is read. */
    lemma Progress(line: Line) returns (a: Action)
      requires Valid(line) && !Done()
      ensures Enabled(line, a)
    {
      match mode {
        case Settling =>
          if Pending(next) in places {
            var i :| 0 <= i < |places| && places[i] == Pending(next);
            a := Due(i);
          } else {
            a := Settle;
          }
        case Busy(i) =>
          a := BusyProgress(line, i);
        case Choosing =>
          if Readable in places {
            var i :| 0 <= i < |places| && places[i] == Readable;
            a := Pick(i);
          } else {
            var i :| 0 <= i < |places| && places[i] == Waiting;
            if WaitsAlone(i) {
              a := Pick(i);
            } else if exists k | 0 <= k < |places| :: places[k] == Waiting && Ready(line, k) {
              var k :| 0 <= k < |places| && places[k] == Waiting && Ready(line, k);
              assert !WaitsAlone(k);
              a := Poll;
            } else {
              assert !Ready(line, i);
              WriterGoes(line);
              a := Write(1);
            }
          }
      }
    }

    lemma BusyProgress(line: Line, i: nat) returns (a: Action)
      requires Valid(line) && mode == Busy(i)
      ensures Enabled(line, a)
    {
      assert ShardValid(line, i);
      var k := line.First(i, next);
      w.SentBounds(line, i, |line.plan|);
      if places[i] == Copying(if next < |line.plan| then line.plan[next].payload else 0) {
        a := Copied;
      } else if InPipe(line, i) > 0 {
        a := Take(1);
      } else if !w.Closed(line) {
        WriterGoes(line);
        a := Write(1);
      } else {
        if k < |line.plan| {
          line.LoadBefore(i, k, |line.plan|);
        }
        a := End;
      }
    }

    lemma StepKeeps(line: Line, a: Action)
      requires Valid(line) && Enabled(line, a)
      ensures After(line, a).Valid(line)
    {
      match a {
        case Write(m) => WriteKeeps(line, m);
        case Poll => PollKeeps(line);
        case Pick(i) => PickKeeps(line, i);
        case Take(m) => TakeKeeps(line, m);
        case End => EndKeeps(line);
        case Due(i) => DueKeeps(line, i);
        case Settle => SettleKeeps(line);
        case Copied => CopiedKeeps(line);
      }
    }

    // ---- no run goes on for ever ----

    function Pipes(line: Line): seq<nat>
      requires Sized(line)
    {
      seq(|places|, i requires 0 <= i < |places| => if InPipe(line, i) > 0 then InPipe(line, i) else 0)
    }

    function Weights(): seq<nat> {
      seq(|places|, i requires 0 <= i < |places| => places[i].Weight())
    }

    function Effort(): nat {
      Sum(Weights()) + if mode == Settling then 1 else 0
    }

    /** A step that moves no byte leaves all pipes as they are. */
    lemma SamePipes(line: Line, a: Action)
      requires Valid(line) && Enabled(line, a) && !a.Write? && !a.Take?
      ensures After(line, a).Sized(line) && After(line, a).Pipes(line) == Pipes(line)
    {
      var that := After(line, a);
      if mode.Busy? {
        At(line, mode.i);
      }
      forall i | 0 <= i < |places| ensures that.InPipe(line, i) == InPipe(line, i) {
        if 1 <= i {
          At(line, i);
        }
      }
    }

    lemma TakeEmpties(line: Line, m: nat)
      requires Valid(line) && Enabled(line, Take(m))
      ensures After(line, Take(m)).Sized(line) && Sum(After(line, Take(m)).Pipes(line)) < Sum(Pipes(line))
    {
      var that := After(line, Take(m));
      At(line, mode.i);
      assert that.InPipe(line, mode.i) == InPipe(line, mode.i) - m;
      assert forall j | 0 <= j < |places| && j != mode.i :: that.InPipe(line, j) == InPipe(line, j);
      SumLess(that.Pipes(line), Pipes(line), mode.i);
    }

    /** Where nothing is read and nothing is done, the places weigh less. */
    lemma LessEffort(line: Line, a: Action)
      requires Valid(line) && Enabled(line, a) && (a.Poll? || a.Pick? || a.End? || a.Due? || a.Settle?)
      ensures After(line, a).Effort() < Effort()
    {
      var that := After(line, a);
      match a {
        case Poll =>
          var i :| 0 <= i < |places| && places[i] == Waiting && Ready(line, i);
          SumLess(that.Weights(), Weights(), i);
        case Pick(i) => SumLess(that.Weights(), Weights(), i);
        case End => SumLess(that.Weights(), Weights(), mode.i);
        case Due(i) => SumLess(that.Weights(), Weights(), i);
        case Settle => assert that.Weights() == Weights();
      }
    }
  }

  function Sum(xs: seq<nat>): nat {
    if xs == [] then 0 else xs[0] + Sum(xs[1..])
  }

  lemma {:induction false} SumLess(xs: seq<nat>, ys: seq<nat>, i: nat)
    requires |xs| == |ys| && i < |xs| && xs[i] < ys[i] && forall j | 0 <= j < |xs| :: xs[j] <= ys[j]
    ensures Sum(xs) < Sum(ys)
  {
    if i == 0 {
      SumAtMost(xs[1..], ys[1..]);
    } else {
      SumLess(xs[1..], ys[1..], i - 1);
    }
  }

  lemma {:induction false} SumAtMost(xs: seq<nat>, ys: seq<nat>)
    requires |xs| == |ys| && forall j | 0 <= j < |xs| :: xs[j] <= ys[j]
    ensures Sum(xs) <= Sum(ys)
  {
    if xs == [] {
    } else {
      SumAtMost(xs[1..], ys[1..]);
    }
  }

  /** A step brings the end nearer: more is written; or else more is read; or else a load is done; or else the
      places weigh less. */
  ghost predicate Nearer(line: Line, s: System, t: System)
    requires s.Sized(line) && t.Sized(line)
  {
    || s.w.done < t.w.done || (s.w.done == t.w.done && s.w.part < t.w.part)
    || (s.w == t.w && Sum(t.Pipes(line)) < Sum(s.Pipes(line)))
    || (s.w == t.w && Sum(t.Pipes(line)) == Sum(s.Pipes(line)) && s.next < t.next)
    || (s.w == t.w && Sum(t.Pipes(line)) == Sum(s.Pipes(line)) && s.next == t.next && t.Effort() < s.Effort())
  }

  lemma StepBringsNearer(line: Line, s: System, a: Action)
    requires s.Valid(line) && s.Enabled(line, a)
    ensures s.After(line, a).Valid(line) && Nearer(line, s, s.After(line, a))
  {
    s.StepKeeps(line, a);
    match a {
      case Write(_) =>
      case Take(m) => s.TakeEmpties(line, m);
      case Copied => s.SamePipes(line, a);
      case _ =>
        s.SamePipes(line, a);
        s.LessEffort(line, a);
    }
  }

  /** The main pass ends from wherever it stands, with everything written and read, in whatever order shards
      become readable. It would do so too with a writer still at work. */
  method RunMainPass(line: Line, start: System) returns (s: System)
    requires start.Valid(line)
    ensures s.Sized(line) && s.next == |line.plan| && s.w.Closed(line)
    ensures forall i | 1 <= i < line.n :: s.places[i] == Finished && s.InPipe(line, i) == 0
  {
    s := start;
    while !s.Done()
      invariant s.Valid(line)
      decreases |line.plan| - s.w.done,
                if s.w.done < |line.plan| then line.plan[s.w.done].Size() - s.w.part else 0,
                Sum(s.Pipes(line)), |line.plan| - s.next, s.Effort()
    {
      ghost var possible := s.Progress(line);
      var a: Action :| s.Enabled(line, a);
      StepBringsNearer(line, s, a);
      s := s.After(line, a);
    }
    s.DoneIsComplete(line);
    forall i | 1 <= i < line.n ensures s.InPipe(line, i) == 0 {
      s.AllRead(line, i);
    }
  }

  // ---- one pass after the other ----

  function MainLoads(plan: seq<Load>): seq<Load> {
    if plan == [] then []
    else
      var before, l := MainLoads(plan[..|plan| - 1]), plan[|plan| - 1];
      if l.to == 0 then before else before + [l]
  }

  function MainLine(line: Line): Line {
    line.(plan := MainLoads(line.plan))
  }

  /** The loads of the main shards are what they were, without those of the small-file shard. */
  lemma {:induction false} MainLoadsMean(plan: seq<Load>, n: nat, capacity: nat, i: nat)
    requires i > 0
    ensures Line(MainLoads(plan), n, capacity).Before(i, |MainLoads(plan)|) == Line(plan, n, capacity).Before(i, |plan|)
    ensures forall l <- MainLoads(plan) :: l in plan && l.to > 0
  {
    if plan == [] {
    } else {
      var front, l := plan[..|plan| - 1], plan[|plan| - 1];
      MainLoadsMean(front, n, capacity, i);
      BeforeSnoc(front, l, n, capacity, i);
      BeforeSnoc(MainLoads(front), l, n, capacity, i);
      assert plan == front + [l];
    }
  }

  lemma BeforeSnoc(plan: seq<Load>, l: Load, n: nat, capacity: nat, i: nat)
    ensures Line(plan + [l], n, capacity).Before(i, |plan| + 1) ==
            Line(plan, n, capacity).Before(i, |plan|) + if l.to == i then l.Size() else 0
  {
    BeforeOfPrefix(plan, [l], n, capacity, i, |plan|);
  }

  lemma {:induction false} BeforeOfPrefix(plan: seq<Load>, more: seq<Load>, n: nat, capacity: nat, i: nat, k: nat)
    requires k <= |plan|
    ensures Line(plan + more, n, capacity).Before(i, k) == Line(plan, n, capacity).Before(i, k)
  {
    if k == 0 {
    } else {
      BeforeOfPrefix(plan, more, n, capacity, i, k - 1);
    }
  }

  /** The main pass starts when the first one has ended: capture has written everything and is gone, the
      small-file shard is finished, and the main shards are as full as they will ever be. */
  function AfterFirstPass(line: Line): System {
    System(Writer(|MainLine(line).plan|, 0), seq(line.n, i => if i == 0 then Finished else Waiting), 0, Choosing)
  }

  lemma FirstPassLeads(line: Line, s: FirstPass)
    requires line.n > 1 && s.Valid(line) && s.Ended(line)
    ensures AfterFirstPass(line).Valid(MainLine(line))
    ensures forall i | 1 <= i < line.n :: AfterFirstPass(line).InPipe(MainLine(line), i) == s.w.Sent(line, i)
  {
    var main, t := MainLine(line), AfterFirstPass(line);
    MainLoadsMean(line.plan, line.n, line.capacity, 1);
    forall i | 1 <= i < line.n ensures t.ShardValid(main, i) && t.InPipe(main, i) == s.w.Sent(line, i) {
      MainLoadsMean(line.plan, line.n, line.capacity, i);
      assert s.w.Sent(line, i) <= line.capacity;
    }
  }

  /** A whole run on connected pipes, the two passes of `serve` and `extract` one after the other: both ends
      run in any order and by any amounts. Everything is written and read if and only if what goes to each
      main shard fits its pipe; otherwise the first pass ends up blocked for ever. */
  method RunMigration(line: Line) returns (first: FirstPass, done: bool, s: System)
    requires line.Valid() && line.n > 1
    ensures first.Valid(line) && done == Fits(line) && (!done ==> first.Blocked(line))
    ensures done ==> first.w.done == |line.plan| && first.read == line.Before(0, |line.plan|)
    ensures done ==> s.Sized(MainLine(line)) && s.next == |MainLine(line).plan|
    ensures done ==> forall i | 1 <= i < line.n :: s.places[i] == Finished && s.InPipe(MainLine(line), i) == 0
  {
    first := RunFirstPass(line);
    s := AfterFirstPass(line);
    done := first.Ended(line);
    if done {
      FirstPassLeads(line, first);
      s := RunMainPass(MainLine(line), s);
    }
  }

  // ---- how much fits ----

  /** What goes to the main shards, whichever they are. */
  function MainTotal(plan: seq<Load>): nat {
    if plan == [] then 0
    else
      var l := plan[|plan| - 1];
      MainTotal(plan[..|plan| - 1]) + if l.to == 0 then 0 else l.Size()
  }

  /** What goes to the main shards below `n`. */
  function Shares(line: Line, n: nat): nat {
    if n <= 1 then 0 else Shares(line, n - 1) + line.Before(n - 1, |line.plan|)
  }

  lemma {:induction false} SharesSnoc(plan: seq<Load>, l: Load, n: nat, capacity: nat, k: nat)
    ensures Shares(Line(plan + [l], n, capacity), k) ==
            Shares(Line(plan, n, capacity), k) + if 1 <= l.to < k then l.Size() else 0
  {
    if k <= 1 {
    } else {
      SharesSnoc(plan, l, n, capacity, k - 1);
      BeforeSnoc(plan, l, n, capacity, k - 1);
    }
  }

  lemma {:induction false} NoShares(n: nat, capacity: nat, k: nat)
    ensures Shares(Line([], n, capacity), k) == 0
  {
    if k <= 1 {
    } else {
      NoShares(n, capacity, k - 1);
    }
  }

  lemma {:induction false} SharesMakeTotal(plan: seq<Load>, n: nat, capacity: nat)
    requires forall l <- plan :: l.to < n
    ensures Shares(Line(plan, n, capacity), n) == MainTotal(plan)
  {
    if plan == [] {
      NoShares(n, capacity, n);
    } else {
      var front, l := plan[..|plan| - 1], plan[|plan| - 1];
      assert plan == front + [l] && l in plan;
      SharesMakeTotal(front, n, capacity);
      SharesSnoc(front, l, n, capacity, n);
    }
  }

  lemma {:induction false} SharesWithin(line: Line, k: nat)
    requires 1 <= k <= line.n && Fits(line)
    ensures Shares(line, k) <= (k - 1) * line.capacity
  {
    if k == 1 {
    } else {
      SharesWithin(line, k - 1);
      TimesNext(k - 2, line.capacity);
      assert line.Before(k - 1, |line.plan|) <= line.capacity;
    }
  }

  lemma TimesNext(a: nat, c: nat)
    ensures (a + 1) * c == a * c + c
  {
  }

  lemma {:induction false} ShareInShares(line: Line, i: nat, k: nat)
    requires 1 <= i < k
    ensures line.Before(i, |line.plan|) <= Shares(line, k)
  {
    if i == k - 1 {
    } else {
      ShareInShares(line, i, k - 1);
    }
  }

  /** Whatever the routing: more than all main pipes hold together does not fit, and what a single one holds
      does. */
  lemma TotalDecides(line: Line)
    requires line.Valid() && line.n > 1
    ensures MainTotal(line.plan) > (line.n - 1) * line.capacity ==> !Fits(line)
    ensures MainTotal(line.plan) <= line.capacity ==> Fits(line)
  {
    SharesMakeTotal(line.plan, line.n, line.capacity);
    if Fits(line) {
      SharesWithin(line, line.n);
    }
    forall i | 1 <= i < line.n ensures line.Before(i, |line.plan|) <= MainTotal(line.plan) {
      ShareInShares(line, i, line.n);
    }
  }
}
