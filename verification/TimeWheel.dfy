/**
  The time wheel as the program keeps it (src/ndsl/net/TimeWheel.cc, include/ndsl/net/TimeWheel.h):
  an array of task lists and mutable tasks.  Every method is proved to do to its value, View(),
  what the operation of the same name in WheelModel does.
*/
module TimeWheel {
  import opened WheelModel

  const S_OK := 0
  const S_FALSE := -1

  class Task {
    var setInterval: int
    var times: int
    var hasDoit: bool
    var restInterval: int
    var setTick: int
    ghost var serial: nat
    ghost var runs: nat

    constructor ()
      ensures setInterval == -1 && times == 1 && restInterval == -1 && setTick == -1
    {
      setInterval, times, restInterval, setTick := -1, 1, -1, -1;
    }

    ghost function State(): TaskState
      reads this
    {
      TaskState(setInterval, times, restInterval, setTick, serial, runs)
    }
  }

  class TimeWheel {
    var curTick: int
    var slot: array<seq<Task>>
    ghost var armed: set<Task>
    ghost var nextSerial: nat

    ghost function View(): Wheel<Task>
      reads this, slot, armed
    {
      Wheel(curTick, slot[..], map t | t in armed :: t.State(), nextSerial)
    }

    ghost predicate Valid()
      reads this, slot, armed
    {
      && slot.Length == SLOTNUM
      && WheelModel.Valid(View())
      && forall t :: t in armed ==> t.hasDoit
    }

    constructor ()
      ensures Valid() && fresh(slot) && armed == {}
      ensures View() == Wheel(0, seq(SLOTNUM, _ => []), map[], 0)
    {
      curTick := 0;
      slot := new seq<Task>[SLOTNUM](_ => []);
      armed := {};
      nextSerial := 0;
      new;
      assert slot[..] == seq(SLOTNUM, _ => []);
    }

    /** Does not look whether the task is armed already; if it is, the wheel is spoilt. */
    method AddTask(task: Task) returns (ret: int)
      requires Valid()
      modifies this`armed, this`nextSerial, slot, task
      ensures slot == old(slot) && (Valid() <==> ret == S_FALSE || task !in old(armed))
      ensures ret == if old(task.setInterval) < 0 || !old(task.hasDoit) then S_FALSE else S_OK
      ensures ret == 0 <==> old(task.setInterval) >= 0 && old(task.hasDoit)
      ensures ret == S_OK ==> View() == WheelModel.AddTask(old(View()), task, old(task.setInterval), old(task.times))
      ensures ret == S_FALSE ==> View() == old(View()) && armed == old(armed)
    {
      if task.setInterval < 0 || !task.hasDoit { return S_FALSE; }
      WheelModel.AddKeepsValid(View(), task, task.setInterval, task.times);
      Arm(task);
      return S_OK;
    }

    /** The accepting part of AddTask. */
    method Arm(task: Task)
      requires slot.Length == SLOTNUM
      modifies this`armed, this`nextSerial, slot, task
      ensures slot == old(slot) && armed == old(armed) + {task}
      ensures View() == WheelModel.AddTask(old(View()), task, old(task.setInterval), old(task.times))
      ensures task.hasDoit == old(task.hasDoit)
    {
      var setTick: int;
      if task.setInterval == 0 {
        setTick := (curTick + 1) % SLOTNUM;
      } else {
        setTick := (curTick + task.setInterval) % SLOTNUM;
      }
      task.setTick := setTick;
      task.restInterval := task.setInterval;
      slot[setTick] := slot[setTick] + [task];
      armed := armed + {task};
      task.serial, task.runs := nextSerial, 0;
      nextSerial := nextSerial + 1;
      assert View().tasks == old(View()).tasks[task := task.State()];
    }

    /** Succeeds exactly for armed tasks. */
    method RemoveTask(task: Task) returns (ret: int)
      requires Valid() && -1 <= task.setTick < SLOTNUM
      modifies this`armed, slot
      ensures Valid() && slot == old(slot)
      ensures ret == if task in old(armed) then S_OK else S_FALSE
      ensures ret == 0 <==> task in old(armed)
      ensures View() == WheelModel.RemoveTask(old(View()), task)
    {
      WheelModel.RemoveKeepsValid(View(), task);
      assert task in armed ==> View().tasks[task] == task.State();
      if task.setInterval == -1 || task.setTick == -1 || !task.hasDoit { return S_FALSE; }
      var i := Find(slot[task.setTick], task);
      if i == |slot[task.setTick]| { return S_FALSE; }
      assert task in View().slots[task.setTick];
      EraseTask(task, i);
      return S_OK;
    }

    static method Find(list: seq<Task>, task: Task) returns (i: nat)
      ensures i <= |list| && task !in list[..i]
      ensures i < |list| ==> list[i] == task
    {
      i := 0;
      while i < |list| && list[i] != task
        invariant i <= |list| && task !in list[..i]
      {
        i := i + 1;
      }
    }

    method EraseTask(task: Task, i: nat)
      requires slot.Length == SLOTNUM && task in armed && 0 <= task.setTick < SLOTNUM
      requires i < |slot[task.setTick]| && slot[task.setTick][i] == task && task !in slot[task.setTick][..i]
      modifies this`armed, slot
      ensures slot == old(slot) && armed == old(armed) - {task}
      ensures View() == WheelModel.RemoveTask(old(View()), task)
    {
      WheelModel.EraseAt(slot[task.setTick], task, i);
      slot[task.setTick] := slot[task.setTick][..i] + slot[task.setTick][i + 1..];
      armed := armed - {task};
      assert View().tasks == old(View()).tasks - {task};
      assert slot[..] == old(slot[..])[task.setTick := Erase(old(slot[task.setTick]), task)];
    }

    /** One tick.  `fired` lists the tasks whose function is called, in order. */
    method OnTick() returns (fired: seq<Task>)
      requires Valid()
      modifies this`armed, this`curTick, this`nextSerial, slot, armed
      ensures Valid() && slot == old(slot)
      ensures (View(), fired) == WheelModel.OnTick(old(View()))
    {
      WheelModel.TickKeepsValid(View());
      WheelModel.AdvanceValid(View());
      var curSlot := MoveHand();
      fired := [];
      if curSlot != [] {
        fired := HandleSlot(curSlot);
      }
    }

    /** Moves the hand and takes the list of its new slot. */
    method MoveHand() returns (curSlot: seq<Task>)
      requires slot.Length == SLOTNUM && 0 <= curTick < SLOTNUM
      modifies this`curTick, slot
      ensures slot == old(slot) && View() == Advance(old(View()))
      ensures curSlot == old(View()).slots[NextTick(old(curTick))]
    {
      curTick := curTick + 1;
      if curTick >= 60 { curTick := curTick % SLOTNUM; }
      curSlot := slot[curTick];
      slot[curTick] := [];
    }

    /** The loop of OnTick over the list taken from the current slot. */
    method HandleSlot(curSlot: seq<Task>) returns (fired: seq<Task>)
      requires slot.Length == SLOTNUM && Ready(View(), curSlot)
      modifies this`armed, this`nextSerial, slot, armed
      ensures slot == old(slot) && armed <= old(armed)
      ensures forall t :: t in old(armed) ==> t.hasDoit == old(t.hasDoit)
      ensures (View(), fired) == HandleAll(old(View()), curSlot, [])
    {
      fired := [];
      var i := 0;
      while i < |curSlot|
        invariant 0 <= i <= |curSlot|
        invariant armed <= old(armed)
        invariant forall t :: t in old(armed) ==> t.hasDoit == old(t.hasDoit)
        invariant Ready(View(), curSlot[i..])
        invariant HandleAll(View(), curSlot[i..], fired) == HandleAll(old(View()), curSlot, [])
      {
        ghost var rest := curSlot[i..];
        assert rest[0] == curSlot[i] && rest[1..] == curSlot[i + 1..];
        assert curSlot[i] in rest;
        assert View().tasks.Keys == armed;
        var due := HandleTask(curSlot[i]);
        if due { fired := fired + [curSlot[i]]; }
        i := i + 1;
      }
      assert curSlot[i..] == [];
    }

    /** One pass of the loop: `due` tells whether the task's function is called. */
    method HandleTask(t: Task) returns (due: bool)
      requires slot.Length == SLOTNUM && 0 <= curTick < SLOTNUM && t in armed
      modifies this`armed, this`nextSerial, slot, t
      ensures slot == old(slot) && armed <= old(armed)
      ensures due <==> !Visit(curTick, old(t.State())).Waits?
      ensures View() == HandleOne(old(View()), t)
      ensures t.hasDoit == old(t.hasDoit)
    {
      due := t.restInterval <= SLOTNUM;
      if !due {
        t.restInterval := t.restInterval - SLOTNUM;
        PushBackTask(t, curTick, old(View()));
      } else {
        FireTask(t);
      }
    }

    /** What follows the call of a due task's function. */
    method FireTask(t: Task)
      requires slot.Length == SLOTNUM && 0 <= curTick < SLOTNUM && t in armed && t.restInterval <= SLOTNUM
      modifies this`armed, this`nextSerial, slot, t
      ensures slot == old(slot) && armed <= old(armed)
      ensures View() == HandleOne(old(View()), t)
      ensures t.hasDoit == old(t.hasDoit)
    {
      ghost var before := View();
      ghost var outcome := Visit(curTick, t.State());
      if t.times > 0 { t.times := t.times - 1; }
      if t.times == 0 {
        DropTask(t, before);
      } else {
        t.setTick := (curTick + t.setInterval) % SLOTNUM;
        t.restInterval := t.setInterval;
        t.runs := t.runs + 1;
        assert outcome == Rearmed(t.State());
        t.serial := nextSerial;
        nextSerial := nextSerial + 1;
        assert View() == before.(tasks := View().tasks, nextSerial := nextSerial);
        PushBackTask(t, t.setTick, before);
      }
    }

    /** Forgets t, the only task changed since `before`. */
    method DropTask(t: Task, ghost before: Wheel<Task>)
      requires t in armed
      requires before == View().(tasks := before.tasks) && before.tasks.Keys == armed
      requires forall x :: x in armed && x != t ==> before.tasks[x] == x.State()
      modifies this`armed
      ensures armed == old(armed) - {t}
      ensures View() == before.(tasks := before.tasks - {t})
    {
      armed := armed - {t};
    }

    /** Appends t, the only task changed since `before`, to slot b. */
    method PushBackTask(t: Task, b: int, ghost before: Wheel<Task>)
      requires slot.Length == SLOTNUM && 0 <= b < SLOTNUM && t in armed
      requires before == View().(tasks := before.tasks, nextSerial := before.nextSerial) && before.tasks.Keys == armed
      requires forall x :: x in armed && x != t ==> before.tasks[x] == x.State()
      modifies slot
      ensures View() == before.(slots := PushBack(before.slots, b, t), tasks := before.tasks[t := t.State()],
                                nextSerial := nextSerial)
    {
      slot[b] := slot[b] + [t];
      assert View().tasks == before.tasks[t := t.State()];
    }
  }
}
