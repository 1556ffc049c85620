/**
  * The echo benchmark: n tasks in a ring of pipes. The master sends a text and waits for it to come
  * back; each slave adds one to the first byte and passes it on. A pipe is a stream of bytes, a read
  * takes what is there (at most a buffer full), and the scheduler picks any task that is not blocked.
  */
module EchoRing {
  import Utf8
  import opened XmlTree

  const MAX_ECHO_SIZE: nat := 1024
  const ECHO_BUF_SIZE: nat := MAX_ECHO_SIZE + 1
  const LETTER_A: Utf8.byte := 65

  // The number of tasks, bytes per message and rounds.
  datatype Config = Config(n: nat, size: nat, ops: nat)

  // What the option checks let through.
  predicate Accepted(c: Config) {
    c.n >= 2 && 1 <= c.size <= MAX_ECHO_SIZE && c.ops >= 1
  }

  datatype Task = Task(count: nat, sending: bool, buf: Str, ok: bool)

  datatype State = State(tasks: seq<Task>, pipes: seq<Str>)

  // ---- the program ----

  function Zeros(n: nat): Str {
    seq(n, i => 0)
  }

  function Start(c: Config): State {
    State(seq(c.n, i => Task(0, i == 0, Zeros(ECHO_BUF_SIZE), true)), seq(c.n, i => []))
  }

  // setup_pipes: every task reads from its left neighbour's pipe.
  function Source(i: nat, n: nat): nat
    requires n >= 1
  {
    if i == 0 then n - 1 else i - 1
  }

  // A character plus a number, in one byte.
  function Bump(b: Utf8.byte, k: nat): Utf8.byte {
    (b + k) % 256
  }

  // The message as the master writes it into a buffer.
  function Fill(buf: Str, size: nat): (r: Str)
    requires 1 <= size <= |buf|
    ensures |r| == |buf|
  {
    seq(size - 1, i => LETTER_A) + [0] + buf[size..]
  }

  function Expected(c: Config): Str
    requires Accepted(c)
  {
    var e := Fill(Zeros(ECHO_BUF_SIZE), c.size);
    e[0 := Bump(e[0], c.n - 1)]
  }

  // A read moves what is there, up to a buffer full, to the front of the buffer.
  function ReadSize(pipe: Str): nat {
    if |pipe| <= ECHO_BUF_SIZE then |pipe| else ECHO_BUF_SIZE
  }

  function Overwrite(buf: Str, data: Str): (r: Str)
    requires |data| <= |buf|
    ensures |r| == |buf|
  {
    data + buf[|data|..]
  }

  predicate Shaped(s: State, c: Config) {
    && Accepted(c)
    && |s.tasks| == |s.pipes| == c.n
    && forall i :: 0 <= i < c.n ==> |s.tasks[i].buf| == ECHO_BUF_SIZE
  }

  // A task is blocked while it waits on an empty pipe, and finished after its last round.
  predicate Enabled(s: State, c: Config, i: nat)
    requires Shaped(s, c)
  {
    i < c.n && s.tasks[i].count < c.ops && (s.tasks[i].sending || s.pipes[Source(i, c.n)] != [])
  }

  function Send(s: State, c: Config, i: nat): State
    requires Shaped(s, c) && i < c.n
  {
    var t := s.tasks[i];
    var buf := if i == 0 then Fill(t.buf, c.size) else t.buf;
    var t1 := if i == 0 then t.(sending := false, buf := buf[0 := 0]) else t.(sending := false, count := t.count + 1);
    State(s.tasks[i := t1], s.pipes[i := s.pipes[i] + buf[..c.size]])
  }

  function Receive(s: State, c: Config, i: nat): State
    requires Shaped(s, c) && i < c.n
  {
    var t := s.tasks[i];
    var src := Source(i, c.n);
    var size := ReadSize(s.pipes[src]);
    var buf := Overwrite(t.buf[0 := 0], s.pipes[src][..size]);
    var t1 :=
      if i == 0 then
        t.(sending := true, count := t.count + 1, buf := buf, ok := t.ok && size == c.size && CStr(buf) == CStr(Expected(c)))
      else if size != c.size then
        t.(count := t.count + 1, buf := buf, ok := false)
      else
        t.(sending := true, buf := buf[0 := Bump(buf[0], 1)]);
    State(s.tasks[i := t1], s.pipes[src := s.pipes[src][size..]])
  }

  function Next(s: State, c: Config, i: nat): (s': State)
    requires Shaped(s, c) && Enabled(s, c, i)
    ensures Shaped(s', c)
  {
    if s.tasks[i].sending then Send(s, c, i) else Receive(s, c, i)
  }

  predicate Possible(s: State, c: Config, schedule: seq<nat>)
    requires Shaped(s, c)
    decreases |schedule|
  {
    schedule == [] || (Enabled(s, c, schedule[0]) && Possible(Next(s, c, schedule[0]), c, schedule[1..]))
  }

  function Run(s: State, c: Config, schedule: seq<nat>): (s': State)
    requires Shaped(s, c) && Possible(s, c, schedule)
    ensures Shaped(s', c)
    decreases |schedule|
  {
    if schedule == [] then s else Run(Next(s, c, schedule[0]), c, schedule[1..])
  }

  // ---- where the message is ----

  // Task `at` is about to send, or the message lies in the pipe of task `at`.
  datatype Place = AtTask(at: nat) | InPipe(at: nat)

  // The text after `at` slaves have handled it.
  function Message(size: nat, at: nat): (m: Str)
    requires size >= 1
    ensures |m| == size
  {
    var m := seq(size - 1, i => LETTER_A) + [0];
    m[0 := Bump(m[0], at)]
  }

  function Sent(i: nat, place: Place): bool {
    match place
    case AtTask(at) => i < at
    case InPipe(at) => i <= at
  }

  // The whole state, given the round and the place of the message.
  predicate At(s: State, c: Config, round: nat, place: Place) {
    && Shaped(s, c)
    && place.at < c.n
    && (forall i :: 0 <= i < c.n ==>
          && s.tasks[i].ok
          && s.tasks[i].count == (if i > 0 && Sent(i, place) then round + 1 else round)
          && s.tasks[i].sending == (place == AtTask(i))
          && s.pipes[i] == if place == InPipe(i) then Message(c.size, i) else [])
    && (place.AtTask? && place.at > 0 ==> s.tasks[place.at].buf[..c.size] == Message(c.size, place.at))
    && (forall k :: c.size <= k < ECHO_BUF_SIZE ==> s.tasks[0].buf[k] == 0)
  }

  predicate OnCourse(s: State, c: Config, round: nat, place: Place) {
    At(s, c, round, place) && (round < c.ops || (round == c.ops && place == AtTask(0)))
  }

  // The one task that can move.
  function Turn(c: Config, place: Place): nat {
    if place.AtTask? then place.at else if place.at + 1 < c.n then place.at + 1 else 0
  }

  function NextPlace(c: Config, place: Place): Place {
    if place.AtTask? then InPipe(place.at) else AtTask(Turn(c, place))
  }

  function NextRound(c: Config, round: nat, place: Place): nat {
    if place.InPipe? && place.at + 1 == c.n then round + 1 else round
  }

  // How many steps it takes to get there.
  function Steps(c: Config, round: nat, place: Place): nat {
    2 * c.n * round + 2 * place.at + if place.AtTask? then 0 else 1
  }

  lemma StartAt(c: Config)
    requires Accepted(c)
    ensures OnCourse(Start(c), c, 0, AtTask(0))
  {
  }

  // In every state on course exactly one task can move, until the last round is over.
  lemma OnlyTurn(s: State, c: Config, round: nat, place: Place, i: nat)
    requires OnCourse(s, c, round, place)
    ensures Enabled(s, c, i) <==> round < c.ops && i == Turn(c, place)
  {
    hide Message;
  }

  lemma MasterSends(s: State, c: Config, round: nat)
    requires OnCourse(s, c, round, AtTask(0)) && round < c.ops
    ensures OnCourse(Next(s, c, 0), c, round, InPipe(0))
  {
    hide CStr;
    assert Fill(s.tasks[0].buf, c.size)[..c.size] == Message(c.size, 0);
    assert s.pipes[0] + Message(c.size, 0) == Message(c.size, 0);
  }

  lemma SlaveSends(s: State, c: Config, round: nat, at: nat)
    requires OnCourse(s, c, round, AtTask(at)) && round < c.ops && at > 0
    ensures OnCourse(Next(s, c, at), c, round, InPipe(at))
  {
    hide CStr, Message, Fill;
    assert s.pipes[at] + Message(c.size, at) == Message(c.size, at);
  }

  lemma SlaveReceives(s: State, c: Config, round: nat, at: nat)
    requires OnCourse(s, c, round, InPipe(at)) && round < c.ops && at + 1 < c.n
    ensures OnCourse(Next(s, c, at + 1), c, round, AtTask(at + 1))
  {
    hide CStr, Message, Fill;
    var pipe := s.pipes[at];
    assert pipe[..c.size] == pipe && pipe[c.size..] == [];
    var buf := Overwrite(s.tasks[at + 1].buf[0 := 0], pipe);
    assert buf[..c.size] == Message(c.size, at);
    assert buf[0 := Bump(buf[0], 1)][..c.size] == Message(c.size, at + 1) by {
      MessageGrows(c.size, at);
      assert buf[0 := Bump(buf[0], 1)][..c.size] == buf[..c.size][0 := Bump(buf[0], 1)];
    }
  }

  lemma MessageGrows(size: nat, at: nat)
    requires size >= 1
    ensures Message(size, at)[0 := Bump(Message(size, at)[0], 1)] == Message(size, at + 1)
  {
  }

  // What comes back is the expected text, byte for byte.
  lemma MasterReceives(s: State, c: Config, round: nat)
    requires c.n >= 1 && OnCourse(s, c, round, InPipe(c.n - 1)) && round < c.ops
    ensures OnCourse(Next(s, c, 0), c, round + 1, AtTask(0))
  {
    hide CStr, Message, Fill;
    var pipe := s.pipes[c.n - 1];
    assert pipe[..c.size] == pipe && pipe[c.size..] == [];
    var buf := Overwrite(s.tasks[0].buf[0 := 0], pipe);
    assert buf == Expected(c) by {
      ExpectedMessage(c);
      assert buf == Message(c.size, c.n - 1) + Zeros(ECHO_BUF_SIZE - c.size);
    }
  }

  lemma ExpectedMessage(c: Config)
    requires Accepted(c)
    ensures Expected(c) == Message(c.size, c.n - 1) + Zeros(ECHO_BUF_SIZE - c.size)
  {
  }

  /** A step from a state on course leads to the next state on course. */
  lemma StaysOnCourse(s: State, c: Config, round: nat, place: Place, i: nat)
    requires OnCourse(s, c, round, place) && Enabled(s, c, i)
    ensures OnCourse(Next(s, c, i), c, NextRound(c, round, place), NextPlace(c, place))
    ensures Steps(c, NextRound(c, round, place), NextPlace(c, place)) == Steps(c, round, place) + 1
  {
    hide Message, CStr, Fill, Next, At, Enabled;
    OnlyTurn(s, c, round, place, i);
    StepsAdvance(c, round, place) by { AtRange(s, c, round, place); }
    match place
    case AtTask(at) =>
      if at == 0 {
        MasterSends(s, c, round);
      } else {
        SlaveSends(s, c, round, at);
      }
    case InPipe(at) =>
      AtRange(s, c, round, place);
      if at + 1 < c.n {
        SlaveReceives(s, c, round, at);
      } else {
        MasterReceives(s, c, round);
      }
  }

  lemma AtRange(s: State, c: Config, round: nat, place: Place)
    requires At(s, c, round, place)
    ensures place.at < c.n
  {
  }

  lemma CourseShaped(s: State, c: Config, round: nat, place: Place)
    requires OnCourse(s, c, round, place)
    ensures Shaped(s, c)
  {
  }

  lemma StepsAdvance(c: Config, round: nat, place: Place)
    requires place.at < c.n
    ensures Steps(c, NextRound(c, round, place), NextPlace(c, place)) == Steps(c, round, place) + 1
  {
    assert 2 * c.n * (round + 1) == 2 * c.n * round + 2 * c.n;
  }

  lemma StepsBound(c: Config, round: nat, place: Place)
    requires place.at < c.n && (round < c.ops || (round == c.ops && place == AtTask(0)))
    ensures Steps(c, round, place) <= 2 * c.n * c.ops
    ensures Steps(c, round, place) == 2 * c.n * c.ops ==> round == c.ops
  {
    if round < c.ops {
      assert 2 * c.n * (round + 1) <= 2 * c.n * c.ops;
      assert 2 * c.n * (round + 1) == 2 * c.n * round + 2 * c.n;
    }
  }

  /** Whatever the scheduler does, the state after k steps is the k-th state on course. */
  lemma {:induction false} RunOnCourse(s: State, c: Config, round: nat, place: Place, schedule: seq<nat>)
    returns (round': nat, place': Place)
    requires OnCourse(s, c, round, place) && Possible(s, c, schedule)
    ensures OnCourse(Run(s, c, schedule), c, round', place')
    ensures Steps(c, round', place') == Steps(c, round, place) + |schedule|
    decreases |schedule|
  {
    hide OnCourse, Enabled, Next, Steps;
    if schedule == [] {
      round', place' := round, place;
    } else {
      CourseShaped(s, c, round, place);
      StaysOnCourse(s, c, round, place, schedule[0]);
      round', place' := RunOnCourse(Next(s, c, schedule[0]), c, NextRound(c, round, place), NextPlace(c, place), schedule[1..]);
    }
  }

  lemma Reached(c: Config, schedule: seq<nat>) returns (round: nat, place: Place)
    requires Accepted(c) && Possible(Start(c), c, schedule)
    ensures OnCourse(Run(Start(c), c, schedule), c, round, place)
    ensures |schedule| == Steps(c, round, place) <= 2 * c.n * c.ops
  {
    hide Run, Possible, At, Message;
    StartAt(c);
    round, place := RunOnCourse(Start(c), c, 0, AtTask(0), schedule);
    AtRange(Run(Start(c), c, schedule), c, round, place);
    StepsBound(c, round, place);
  }

  // ---- the promises ----

  /** At most one message is in flight, and it is whole. */
  lemma OneInFlight(c: Config, schedule: seq<nat>, i: nat, j: nat)
    requires Accepted(c) && Possible(Start(c), c, schedule) && i < c.n && j < c.n
    ensures var pipes := Run(Start(c), c, schedule).pipes;
            && (pipes[i] == [] || pipes[i] == Message(c.size, i))
            && (pipes[i] != [] && pipes[j] != [] ==> i == j)
  {
    hide Run, Possible, Message, Steps;
    var round, place := Reached(c, schedule);
  }

  /** What is in flight behind task i, byte by byte: letters A and a NUL, and i added to the first byte, which is
    * that NUL in a message of a single byte. */
  lemma FlightBytes(c: Config, schedule: seq<nat>, i: nat)
    requires Accepted(c) && Possible(Start(c), c, schedule) && i < c.n
    ensures var pipe := Run(Start(c), c, schedule).pipes[i];
            pipe != [] ==>
              && |pipe| == c.size
              && pipe[0] == ((if c.size > 1 then 65 else 0) + i) % 256
              && (forall k :: 0 < k < c.size ==> pipe[k] == if k == c.size - 1 then 0 else 65)
  {
    hide Run, Possible, Steps;
    OneInFlight(c, schedule, i, i);
  }

  /** No task is more than one round ahead of another. */
  lemma CountsTogether(c: Config, schedule: seq<nat>, i: nat, j: nat)
    requires Accepted(c) && Possible(Start(c), c, schedule) && i < c.n && j < c.n
    ensures var tasks := Run(Start(c), c, schedule).tasks;
            tasks[i].count <= tasks[j].count + 1
  {
    hide Run, Possible, Message, Steps;
    var round, place := Reached(c, schedule);
  }

  /** The master's comparison always succeeds and no read ever has the wrong size. */
  lemma NoErrors(c: Config, schedule: seq<nat>, i: nat)
    requires Accepted(c) && Possible(Start(c), c, schedule) && i < c.n
    ensures Run(Start(c), c, schedule).tasks[i].ok
  {
    hide Run, Possible, Message, Steps;
    var round, place := Reached(c, schedule);
  }

  /** Every run ends: it has at most 2 n K steps, and it is stuck exactly when it has made them all, with
    * every task through all of its rounds. */
  lemma RunsEnd(c: Config, schedule: seq<nat>)
    requires Accepted(c) && Possible(Start(c), c, schedule)
    ensures |schedule| <= 2 * c.n * c.ops
    ensures var s := Run(Start(c), c, schedule);
            && ((forall i :: 0 <= i < c.n ==> !Enabled(s, c, i)) <==> |schedule| == 2 * c.n * c.ops)
            && ((forall i :: 0 <= i < c.n ==> !Enabled(s, c, i)) <==> forall i :: 0 <= i < c.n ==> s.tasks[i].count == c.ops)
  {
    hide Run, Possible, Message, Steps, Enabled;
    var round, place := Reached(c, schedule);
    var s := Run(Start(c), c, schedule);
    forall i | 0 <= i < c.n
      ensures Enabled(s, c, i) <==> round < c.ops && i == Turn(c, place)
    {
      OnlyTurn(s, c, round, place, i);
    }
    assert 0 <= Turn(c, place) < c.n;
    StepsBound(c, round, place);
    if round == c.ops {
      assert Steps(c, c.ops, AtTask(0)) == 2 * c.n * c.ops by { StepsAtEnd(c); }
    } else {
      assert Enabled(s, c, Turn(c, place));
      assert s.tasks[0].count == round;
    }
  }

  lemma StepsAtEnd(c: Config)
    ensures Steps(c, c.ops, AtTask(0)) == 2 * c.n * c.ops
  {
  }

  /** Whatever arrives, a task that is still without error has read a message of the right size, and the master
    * one that spells the expected text up to the NUL. */
  lemma ErrorsReported(s: State, c: Config, i: nat)
    requires Shaped(s, c) && Enabled(s, c, i) && !s.tasks[i].sending && Next(s, c, i).tasks[i].ok
    ensures var pipe := s.pipes[Source(i, c.n)];
            var got := if |pipe| <= 1025 then pipe else pipe[..1025];
            && s.tasks[i].ok && |got| == c.size
            && (i == 0 ==> CStr(got + s.tasks[0].buf[c.size..]) == CStr(Expected(c)))
  {
    hide CStr, Fill, Expected;
    var pipe := s.pipes[Source(i, c.n)];
    assert pipe[..|pipe|] == pipe;
    assert s.tasks[i].buf[0 := 0][c.size..] == s.tasks[i].buf[c.size..];
  }

  // ---- the ring as it runs ----

  /** The shared pipes and every task's own variables, updated in place. */
  class Ring {
    const c: Config
    var tasks: seq<Task>
    var pipes: seq<Str>

    function Value(): State
      reads this
    {
      State(tasks, pipes)
    }

    ghost predicate Valid()
      reads this
    {
      Shaped(Value(), c)
    }

    constructor (c: Config)
      requires Accepted(c)
      ensures this.c == c && Value() == Start(c) && Valid()
    {
      this.c := c;
      tasks := seq(c.n, i => Task(0, i == 0, Zeros(ECHO_BUF_SIZE), true));
      pipes := seq(c.n, i => []);
    }

    method WriteFds(i: nat, data: Str)
      requires i < |pipes|
      modifies this`pipes
      ensures pipes == old(pipes)[i := old(pipes)[i] + data]
    {
      pipes := pipes[i := pipes[i] + data];
    }

    method ReadFds(i: nat) returns (data: Str)
      requires Valid() && i < c.n && pipes[Source(i, c.n)] != []
      modifies this`pipes
      ensures var pipe := old(pipes)[Source(i, c.n)];
              data == pipe[..ReadSize(pipe)] && pipes == old(pipes)[Source(i, c.n) := pipe[ReadSize(pipe)..]]
    {
      var src := Source(i, c.n);
      var size := ReadSize(pipes[src]);
      data := pipes[src][..size];
      pipes := pipes[src := pipes[src][size..]];
    }

    /** The part of a task's loop up to the point where it may block again. */
    method Move(i: nat)
      requires Valid() && Enabled(Value(), c, i)
      modifies this
      ensures Valid() && Value() == Next(old(Value()), c, i)
    {
      var t := tasks[i];
      if t.sending {
        if i == 0 {
          t := t.(buf := Fill(t.buf, c.size));
          WriteFds(i, t.buf[..c.size]);
          t := t.(buf := t.buf[0 := 0], sending := false);
        } else {
          WriteFds(i, t.buf[..c.size]);
          t := t.(count := t.count + 1, sending := false);
        }
      } else {
        t := t.(buf := t.buf[0 := 0]);
        var data := ReadFds(i);
        t := t.(buf := Overwrite(t.buf, data));
        if i == 0 {
          if |data| != c.size {
            t := t.(ok := false);
          } else if CStr(t.buf) != CStr(Expected(c)) {
            t := t.(ok := false);
          }
          t := t.(count := t.count + 1, sending := true);
        } else if |data| != c.size {
          t := t.(ok := false, count := t.count + 1);
        } else {
          t := t.(buf := t.buf[0 := Bump(t.buf[0], 1)], sending := true);
        }
      }
      tasks := tasks[i := t];
    }

    /** Let any task that can move do so, until none can: every task then has done all of its rounds
      * without an error. */
    method Play()
      requires Value() == Start(c) && Accepted(c)
      modifies this
      ensures Valid()
      ensures forall i :: 0 <= i < c.n ==> tasks[i].ok && tasks[i].count == c.ops
    {
      hide At, Message, CStr, Next, Enabled, Steps;
      StartAt(c);
      ghost var round, place := 0, AtTask(0);
      AtRange(Value(), c, round, place);
      StepsBound(c, round, place);
      while exists i :: 0 <= i < c.n && Enabled(Value(), c, i)
        invariant OnCourse(Value(), c, round, place) && Valid()
        invariant Steps(c, round, place) <= 2 * c.n * c.ops
        decreases 2 * c.n * c.ops - Steps(c, round, place)
      {
        var i :| 0 <= i < c.n && Enabled(Value(), c, i);
        StaysOnCourse(Value(), c, round, place, i);
        Move(i);
        round, place := NextRound(c, round, place), NextPlace(c, place);
        AtRange(Value(), c, round, place);
        StepsBound(c, round, place);
      }
      Finished(Value(), c, round, place);
    }
  }

  lemma Finished(s: State, c: Config, round: nat, place: Place)
    requires OnCourse(s, c, round, place) && forall i :: 0 <= i < c.n ==> !Enabled(s, c, i)
    ensures forall i :: 0 <= i < c.n ==> s.tasks[i].ok && s.tasks[i].count == c.ops
  {
    hide Message, CStr;
    OnlyTurn(s, c, round, place, Turn(c, place));
  }
}
