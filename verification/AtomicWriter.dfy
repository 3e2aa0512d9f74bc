/** `write_atomic` as interleaved steps of any number of writers of one file. */
module AtomicWriter {
  import opened Prelude
  import opened Decimal

  // ---------------------------------------------------------------- the names

  /** The writer's temporary: process id and counter, separated by a dot. */
  function TmpName(file: string, pid: nat, counter: nat): string {
    file + ".tmp." + Digits(pid) + "." + Digits(counter)
  }

  function FirstDot(s: string): nat {
    if s == "" || s[0] == '.' then 0 else 1 + FirstDot(s[1..])
  }

  lemma {:induction false} DotAfter(x: string, y: string)
    requires '.' !in x
    ensures FirstDot(x + "." + y) == |x| && (x + "." + y)[..|x|] == x && (x + "." + y)[|x| + 1..] == y
  {
    var s := x + "." + y;
    if x != "" {
      DotAfter(x[1..], y);
      assert s[1..] == x[1..] + "." + y;
      assert s[0] == x[0] && x[0] in x;
    }
  }

  /** Temporary names never collide, and none is the file itself. */
  lemma TmpNamesInjective(file: string, p: nat, c: nat, p': nat, c': nat)
    ensures TmpName(file, p, c) == TmpName(file, p', c') ==> p == p' && c == c'
    ensures TmpName(file, p, c) != file
  {
    assert |TmpName(file, p, c)| > |file|;
    if TmpName(file, p, c) == TmpName(file, p', c') {
      var head := file + ".tmp.";
      assert TmpName(file, p, c) == head + (Digits(p) + "." + Digits(c));
      assert TmpName(file, p', c') == head + (Digits(p') + "." + Digits(c'));
      assert TmpName(file, p, c)[|head|..] == Digits(p) + "." + Digits(c);
      assert TmpName(file, p', c')[|head|..] == Digits(p') + "." + Digits(c');
      DotAfter(Digits(p), Digits(c));
      DotAfter(Digits(p'), Digits(c'));
      DigitsRead(p); DigitsRead(p'); DigitsRead(c); DigitsRead(c');
    }
  }

  // ---------------------------------------------------------------- the machine

  datatype Content = Torn(text: string) | Whole(text: string)

  /** Where a writer is: before `spit`, inside it, before the first rename, in the
      fallback, or finished, with success or with an exception. */
  datatype Pc = Begin | Writing | Renaming | Checking | Removing | Retrying | Cleaning | Done | Failed

  datatype Writer = Writer(pid: nat, counter: nat, text: string, pc: Pc)

  type Disk = map<string, Content>

  /** `overwrites`: does a rename replace an existing file on this filesystem. */
  datatype System = System(file: string, overwrites: bool, initial: Option<Content>)

  datatype State = State(disk: Disk, writers: seq<Writer>)

  function Tmp(y: System, w: Writer): string {
    TmpName(y.file, w.pid, w.counter)
  }

  predicate Finished(w: Writer) {
    w.pc.Done? || w.pc.Failed?
  }

  /** A rename fails only because its source is gone, or because the destination
      exists where that is not allowed. */
  predicate RenameWorks(y: System, d: Disk, tmp: string) {
    tmp in d && (y.overwrites || y.file !in d)
  }

  /** One step of one writer; None when it has none. Writing is two steps, so
      that others can see the temporary half written. */
  function WriterStep(y: System, d: Disk, w: Writer): Option<(Disk, Writer)> {
    var tmp := Tmp(y, w);
    match w.pc
    case Begin => Some((d[tmp := Torn(w.text)], w.(pc := Writing)))
    case Writing => Some((d[tmp := Whole(w.text)], w.(pc := Renaming)))
    case Renaming =>
      if RenameWorks(y, d, tmp) then Some(((d - {tmp})[y.file := d[tmp]], w.(pc := Done)))
      else Some((d, w.(pc := Checking)))
    case Checking => Some((d, w.(pc := if tmp in d then Removing else Cleaning)))
    case Removing => Some((d - {y.file}, w.(pc := Retrying)))
    case Retrying =>
      if RenameWorks(y, d, tmp) then Some(((d - {tmp})[y.file := d[tmp]], w.(pc := Done)))
      else Some((d, w.(pc := Cleaning)))
    case Cleaning => Some((d - {tmp}, w.(pc := Failed)))
    case Done => None
    case Failed => None
  }

  predicate Next(y: System, s: State, s': State, i: nat) {
    && i < |s.writers|
    && WriterStep(y, s.disk, s.writers[i]).Some?
    && s' == State(WriterStep(y, s.disk, s.writers[i]).value.0,
                   s.writers[i := WriterStep(y, s.disk, s.writers[i]).value.1])
  }

  /** Writers that run at the same time differ in process or in counter. */
  ghost predicate Distinct(ws: seq<Writer>) {
    forall i, j :: 0 <= i < j < |ws| ==> ws[i].pid != ws[j].pid || ws[i].counter != ws[j].counter
  }

  ghost predicate Init(y: System, s: State) {
    && Distinct(s.writers) && (forall i :: 0 <= i < |s.writers| ==> s.writers[i].pc.Begin?)
    && y.initial == (if y.file in s.disk then Some(s.disk[y.file]) else None)
  }

  ghost predicate IsRun(y: System, run: seq<State>, who: seq<nat>) {
    |run| == |who| + 1 && Init(y, run[0]) && forall k :: 0 <= k < |who| ==> Next(y, run[k], run[k + 1], who[k])
  }

  // ------------------------------------------------------------- what is kept

  /** What the writer's own temporary holds at each point. */
  predicate OwnTmp(y: System, d: Disk, w: Writer) {
    var tmp := Tmp(y, w);
    match w.pc
    case Begin => true
    case Writing => tmp in d && d[tmp] == Torn(w.text)
    case Done => tmp !in d
    case Failed => tmp !in d
    case _ => tmp in d && d[tmp] == Whole(w.text)
  }

  /** The file holds what it held at the start, or the complete text of a writer. */
  ghost predicate FileIsWhole(y: System, s: State) {
    y.file in s.disk ==>
      || Some(s.disk[y.file]) == y.initial
      || exists i :: 0 <= i < |s.writers| && s.disk[y.file] == Whole(s.writers[i].text)
  }

  /** A writer that will still try to put its text in place. */
  predicate WillRename(w: Writer) {
    w.pc in {Begin, Writing, Renaming, Checking, Removing, Retrying}
  }

  /** While the file is missing, somebody is still going to put it there: the
      fallback removes it only with a replacement in hand. */
  ghost predicate SomebodyWill(y: System, s: State) {
    y.file !in s.disk && (y.initial.Some? || exists i :: 0 <= i < |s.writers| && !WillRename(s.writers[i])) ==>
      exists i :: 0 <= i < |s.writers| && WillRename(s.writers[i])
  }

  ghost predicate Inv(y: System, s: State) {
    && Distinct(s.writers) && FileIsWhole(y, s) && SomebodyWill(y, s)
    && (forall i :: 0 <= i < |s.writers| ==> OwnTmp(y, s.disk, s.writers[i]))
    && (y.overwrites ==> forall i :: 0 <= i < |s.writers| ==> s.writers[i].pc in {Begin, Writing, Renaming, Done})
    && (y.overwrites && y.initial.Some? ==> y.file in s.disk)
  }

  lemma OthersTmp(y: System, s: State, s': State, i: nat, j: nat)
    requires Inv(y, s) && Next(y, s, s', i) && j < |s.writers| && j != i
    ensures OwnTmp(y, s'.disk, s'.writers[j])
  {
    var w, v := s.writers[i], s.writers[j];
    TmpNamesInjective(y.file, w.pid, w.counter, v.pid, v.counter);
    assert i < j || j < i;
    assert OwnTmp(y, s.disk, v) && Tmp(y, w) != Tmp(y, v);
    assert Tmp(y, v) in s'.disk <==> Tmp(y, v) in s.disk;
    assert Tmp(y, v) in s.disk ==> s'.disk[Tmp(y, v)] == s.disk[Tmp(y, v)];
  }

  lemma StepKeepsFile(y: System, s: State, s': State, i: nat)
    requires Inv(y, s) && Next(y, s, s', i)
    ensures FileIsWhole(y, s') && SomebodyWill(y, s')
    ensures y.overwrites && y.initial.Some? ==> y.file in s'.disk
  {
    var w := s.writers[i];
    TmpNamesInjective(y.file, w.pid, w.counter, w.pid, w.counter);
    assert OwnTmp(y, s.disk, w);
    assert forall j :: 0 <= j < |s.writers| ==> s'.writers[j].text == s.writers[j].text;
    assert forall j :: 0 <= j < |s.writers| && j != i ==> s'.writers[j] == s.writers[j];
    if y.file in s'.disk {
      if y.file in s.disk && s'.disk[y.file] == s.disk[y.file] {
        if Some(s.disk[y.file]) != y.initial {
          var k :| 0 <= k < |s.writers| && s.disk[y.file] == Whole(s.writers[k].text);
          assert s'.disk[y.file] == Whole(s'.writers[k].text);
        }
      } else {
        assert s'.disk[y.file] == Whole(s'.writers[i].text);
      }
    } else if WillRename(s'.writers[i]) {
    } else {
      assert !WillRename(w);
      var k :| 0 <= k < |s.writers| && WillRename(s.writers[k]);
      assert WillRename(s'.writers[k]);
    }
  }

  lemma InvNext(y: System, s: State, s': State, i: nat)
    requires Inv(y, s) && Next(y, s, s', i)
    ensures Inv(y, s')
  {
    var w := s.writers[i];
    TmpNamesInjective(y.file, w.pid, w.counter, w.pid, w.counter);
    assert OwnTmp(y, s.disk, w);
    StepKeepsFile(y, s, s', i);
    forall j | 0 <= j < |s'.writers| ensures OwnTmp(y, s'.disk, s'.writers[j]) {
      if j != i {
        OthersTmp(y, s, s', i, j);
      }
    }
  }

  lemma {:induction false} RunKeepsInv(y: System, run: seq<State>, who: seq<nat>, k: nat)
    requires IsRun(y, run, who) && k < |run|
    ensures Inv(y, run[k]) && |run[k].writers| == |run[0].writers|
  {
    if k > 0 {
      RunKeepsInv(y, run, who, k - 1);
      InvNext(y, run[k - 1], run[k], who[k - 1]);
    }
  }

  /** In every state of every interleaving, a reader of the file sees what was
      there at the start or the complete text of one writer; and where a rename
      replaces an existing file, no writer ever fails and the file never goes
      missing. */
  lemma NeverTorn(y: System, run: seq<State>, who: seq<nat>, k: nat)
    requires IsRun(y, run, who) && k < |run|
    ensures FileIsWhole(y, run[k])
    ensures y.overwrites && y.initial.Some? ==> y.file in run[k].disk
    ensures y.overwrites ==> forall i :: 0 <= i < |run[k].writers| ==> !run[k].writers[i].pc.Failed?
  {
    RunKeepsInv(y, run, who, k);
  }

  /** Once every writer has finished, one way or the other, the file is there. */
  lemma FileIsThereAtTheEnd(y: System, run: seq<State>, who: seq<nat>)
    requires IsRun(y, run, who) && |run[0].writers| > 0
    requires var last := run[|who|]; forall i :: 0 <= i < |last.writers| ==> Finished(last.writers[i])
    ensures y.file in run[|who|].disk
  {
    RunKeepsInv(y, run, who, |who|);
    assert !WillRename(run[|who|].writers[0]);
  }

  /** Step `j` was writer `i` putting its whole text in place. */
  ghost predicate PutsInPlace(y: System, run: seq<State>, who: seq<nat>, j: nat, i: nat) {
    && j < |who| && j + 1 < |run| && who[j] == i && i < |run[0].writers|
    && y.file in run[j + 1].disk && run[j + 1].disk[y.file] == Whole(run[0].writers[i].text)
  }

  lemma OneStep(y: System, s: State, s': State, i: nat, by': nat)
    requires Inv(y, s) && Next(y, s, s', by') && i < |s.writers|
    ensures s'.writers[i].text == s.writers[i].text
    ensures s'.writers[i].pc.Done? && !s.writers[i].pc.Done? ==>
      by' == i && y.file in s'.disk && s'.disk[y.file] == Whole(s.writers[i].text)
  {
    hide TmpName;
    assert OwnTmp(y, s.disk, s.writers[i]);
  }

  lemma {:induction false} TextStays(y: System, run: seq<State>, who: seq<nat>, k: nat, i: nat)
    requires IsRun(y, run, who) && k < |run| && i < |run[0].writers|
    ensures i < |run[k].writers| && run[k].writers[i].text == run[0].writers[i].text
  {
    hide Inv, Init;
    if k > 0 {
      TextStays(y, run, who, k - 1, i);
      RunKeepsInv(y, run, who, k - 1);
      OneStep(y, run[k - 1], run[k], i, who[k - 1]);
    }
  }

  /** A writer that reports success has put its whole text in place, at some step of its own. */
  lemma {:induction false} SuccessIsTrue(y: System, run: seq<State>, who: seq<nat>, k: nat, i: nat)
    requires IsRun(y, run, who) && k < |run| && i < |run[0].writers|
    requires i < |run[k].writers| && run[k].writers[i].pc.Done?
    ensures exists j: nat :: j < k && PutsInPlace(y, run, who, j, i)
  {
    hide Inv;
    if k > 0 {
      RunKeepsInv(y, run, who, k - 1);
      TextStays(y, run, who, k - 1, i);
      OneStep(y, run[k - 1], run[k], i, who[k - 1]);
      if run[k - 1].writers[i].pc.Done? {
        SuccessIsTrue(y, run, who, k - 1, i);
      } else {
        assert PutsInPlace(y, run, who, k - 1, i);
      }
    }
  }

  // -------------------------------------------------------- the code itself

  /** One writer running alone to its end. */
  function Alone(y: System, d: Disk, w: Writer, fuel: nat): (Disk, Writer)
    decreases fuel
  {
    var step := WriterStep(y, d, w);
    if fuel == 0 || step.None? then (d, w) else Alone(y, step.value.0, step.value.1, fuel - 1)
  }

  /** The machine agrees with the method below about a writer that is alone. */
  lemma AloneSucceeds(y: System, d: Disk, w: Writer)
    requires w.pc.Begin?
    ensures var (r, v) := Alone(y, d, w, 9);
      && v == w.(pc := Done)
      && y.file in r && r[y.file] == Whole(w.text) && Tmp(y, w) !in r
      && r - {y.file} == d - {y.file, Tmp(y, w)}
  {
    var tmp := Tmp(y, w);
    TmpNamesInjective(y.file, w.pid, w.counter, w.pid, w.counter);
    hide TmpName;
    var d2 := d[tmp := Torn(w.text)][tmp := Whole(w.text)];
    var renaming := w.(pc := Renaming);
    assert Alone(y, d, w, 9) == Alone(y, d[tmp := Torn(w.text)], w.(pc := Writing), 8) == Alone(y, d2, renaming, 7);
    if RenameWorks(y, d2, tmp) {
      assert Alone(y, d2, renaming, 7) == ((d2 - {tmp})[y.file := d2[tmp]], w.(pc := Done));
    } else {
      var d3 := d2 - {y.file};
      assert Alone(y, d2, renaming, 7) == Alone(y, d2, w.(pc := Checking), 6)
        == Alone(y, d2, w.(pc := Removing), 5) == Alone(y, d3, w.(pc := Retrying), 4);
      assert RenameWorks(y, d3, tmp);
    }
  }

  class Directory {
    var disk: Disk
    var counter: nat
    const y: System

    constructor (y: System, d: Disk)
      ensures this.y == y && disk == d && counter == 0
    {
      this.y, disk, counter := y, d, 0;
    }

    method Spit(name: string, text: string)
      modifies `disk
      ensures disk == old(disk)[name := Whole(text)]
    {
      disk := disk[name := Torn(text)];
      disk := disk[name := Whole(text)];
    }

    method Rename(from: string, to: string) returns (ok: bool)
      requires to == y.file
      modifies `disk
      ensures ok <==> RenameWorks(y, old(disk), from)
      ensures disk == if ok then (old(disk) - {from})[to := old(disk)[from]] else old(disk)
    {
      ok := RenameWorks(y, disk, from);
      if ok {
        disk := (disk - {from})[to := disk[from]];
      }
    }

    /** `write_atomic`, alone: it succeeds, and the file is the whole text. */
    method WriteAtomic(pid: nat, text: string) returns (ok: bool)
      modifies this
      ensures ok && counter == old(counter) + 1
      ensures y.file in disk && disk[y.file] == Whole(text) && TmpName(y.file, pid, old(counter)) !in disk
      ensures disk - {y.file} == old(disk) - {y.file, TmpName(y.file, pid, old(counter))}
    {
      var tmp := TmpName(y.file, pid, counter);
      TmpNamesInjective(y.file, pid, counter, pid, counter);
      counter := counter + 1;
      Spit(tmp, text);
      ok := Rename(tmp, y.file);
      if ok {
        return;
      }
      if tmp in disk {
        disk := disk - {y.file};
        ok := Rename(tmp, y.file);
        if ok {
          return;
        }
      }
      disk := disk - {tmp};
    }
  }
}
