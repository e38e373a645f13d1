/**
 * The trace checker script: it reads a trace file and reports requests that
 * make no sense for the block ids' allocation state — freeing a free id,
 * allocating an allocated one, reallocating a free one, or an unknown
 * request letter. The state table has one slot per id, 0 for free and 1 for
 * allocated, and an id indexes it as a Python list index does, so a
 * negative id counts from the end and an id outside the table raises an
 * `IndexError` that ends the script.
 */
module TraceChecker {
  import TraceFile
  import opened Wrappers

  /** One report line: the kind of complaint and the number printed with it. */
  datatype Message =
    | FreedUnallocated(line: int)
    | AllocatedTwice(line: int)
    | ReallocUnallocated(line: int)
    | InvalidAction(action: seq<char>, line: int)

  /** The checker's state: what it has printed, its table, and whether an exception ended it. */
  datatype State = State(msgs: seq<Message>, table: seq<int>, crashed: bool)

  /** The white space Python's `str.split()` and `int()` skip (the ASCII part of it). */
  predicate IsSpace(c: char)
  {
    c == ' ' || c == '\t' || c == '\n' || c == '\r' || c == '\U{0B}' || c == '\U{0C}'
    || c == '\U{1C}' || c == '\U{1D}' || c == '\U{1E}' || c == '\U{1F}'
  }

  /** `text.split(sep)`: the pieces between separators, empty ones included. */
  function SplitOn(text: seq<char>, sep: char): (parts: seq<seq<char>>)
    ensures |parts| > 0
    ensures forall k :: 0 <= k < |parts| ==> sep !in parts[k]
  {
    if |text| == 0 then [[]]
    else
      var rest := SplitOn(text[1..], sep);
      if text[0] == sep then [[]] + rest
      else [[text[0]] + rest[0]] + rest[1..]
  }

  /** The pieces joined back with the separator between them. */
  function JoinWith(parts: seq<seq<char>>, sep: char): seq<char>
  {
    if |parts| == 0 then [] else if |parts| == 1 then parts[0] else parts[0] + [sep] + JoinWith(parts[1..], sep)
  }

  /** Splitting loses nothing: joining the pieces gives the text back. */
  lemma {:induction false} SplitJoin(text: seq<char>, sep: char)
    ensures JoinWith(SplitOn(text, sep), sep) == text
  {
    if |text| > 0 {
      var rest := SplitOn(text[1..], sep);
      SplitJoin(text[1..], sep);
      if text[0] == sep {
        assert [sep] + JoinWith(rest, sep) == text;
      } else {
        var parts := SplitOn(text, sep);
        if |rest| == 1 {
          assert parts == [[text[0]] + rest[0]];
          assert [text[0]] + rest[0] == text;
        } else {
          assert parts[1..] == rest[1..];
          assert JoinWith(parts, sep) == [text[0]] + rest[0] + [sep] + JoinWith(rest[1..], sep);
          assert JoinWith(rest, sep) == rest[0] + [sep] + JoinWith(rest[1..], sep);
          assert [text[0]] + (rest[0] + [sep] + JoinWith(rest[1..], sep)) == text;
        }
      }
    }
  }

  /** `[i for i in parts if i]`: the non-empty pieces in order. */
  function NonEmptyParts(parts: seq<seq<char>>): (r: seq<seq<char>>)
    ensures |r| <= |parts|
    ensures forall k :: 0 <= k < |r| ==> |r[k]| > 0
  {
    if |parts| == 0 then []
    else if |parts[0]| == 0 then NonEmptyParts(parts[1..])
    else [parts[0]] + NonEmptyParts(parts[1..])
  }

  /** The length of the word at the start of `s`. */
  function WordLength(s: seq<char>): (n: nat)
    ensures n <= |s|
    ensures |s| > 0 && !IsSpace(s[0]) ==> n > 0
    ensures forall k :: 0 <= k < n ==> !IsSpace(s[k])
  {
    if |s| > 0 && !IsSpace(s[0]) then 1 + WordLength(s[1..]) else 0
  }

  /** `line.split()`: the words between runs of white space. */
  function Words(s: seq<char>): (ws: seq<seq<char>>)
    ensures forall k :: 0 <= k < |ws| ==> |ws[k]| > 0
    ensures forall k, j :: 0 <= k < |ws| && 0 <= j < |ws[k]| ==> !IsSpace(ws[k][j])
    decreases |s|
  {
    if |s| == 0 then []
    else if IsSpace(s[0]) then Words(s[1..])
    else
      var n := WordLength(s);
      [s[..n]] + Words(s[n..])
  }

  /** `s` with the white space at both ends removed. */
  function Trim(s: seq<char>): seq<char>
    decreases |s|
  {
    if |s| > 0 && IsSpace(s[0]) then Trim(s[1..])
    else if |s| > 0 && IsSpace(s[|s| - 1]) then Trim(s[..|s| - 1])
    else s
  }

  /** All characters are decimal digits and there is at least one. */
  predicate AllDigits(s: seq<char>)
  {
    |s| > 0 && forall k :: 0 <= k < |s| ==> TraceFile.IsDigit(s[k])
  }

  /** `int(s)`: an optionally signed run of digits between optional white space; `None` raises `ValueError`. */
  function PyInt(s: seq<char>): (r: Option<int>)
  {
    var t := Trim(s);
    if |t| > 0 && (t[0] == '-' || t[0] == '+') && AllDigits(t[1..]) then
      var m: int := TraceFile.Value(t[1..]);
      Some(if t[0] == '-' then -m else m)
    else if AllDigits(t) then Some(TraceFile.Value(t))
    else None
  }

  /** `alloc_lst[v]` is defined: `v` indexes a list of `n` entries, counting from the end when negative. */
  predicate InRange(v: int, n: nat)
  {
    -(n as int) <= v < n
  }

  /** The entry `alloc_lst[v]` refers to. */
  function Slot(v: int, n: nat): (i: nat)
    requires InRange(v, n)
    ensures i < n
  {
    if v < 0 then v + n else v
  }

  /** `[0] * n`: a table of `n` free slots; a negative count gives an empty table. */
  function Zeros(n: int): (t: seq<int>)
    ensures |t| == if n < 0 then 0 else n
    ensures forall k :: 0 <= k < |t| ==> t[k] == 0
  {
    if n <= 0 then [] else Zeros(n - 1) + [0]
  }

  /** One pass of the loop: the request letter `action` on id `v`, reported as line `line`. */
  function CheckOne(st: State, action: seq<char>, v: int, line: int): (r: State)
    requires !st.crashed
    ensures |r.table| == |st.table|
  {
    var n := |st.table|;
    if action == "f" || action == "a" || action == "r" then
      if !InRange(v, n) then st.(crashed := true)
      else
        var i := Slot(v, n);
        if action == "f" then
          State(st.msgs + (if st.table[i] == 0 then [FreedUnallocated(line)] else []), st.table[i := 0], false)
        else if action == "a" then
          State(st.msgs + (if st.table[i] == 1 then [AllocatedTwice(line)] else []), st.table[i := 1], false)
        else
          st.(msgs := st.msgs + (if st.table[i] == 0 then [ReallocUnallocated(line)] else []))
    else
      st.(msgs := st.msgs + [InvalidAction(action, line)])
  }

  /** The state after the first `|actions|` passes of the loop over a table of `n` slots. */
  function Checked(actions: seq<seq<char>>, vars: seq<int>, n: nat): (st: State)
    requires |actions| == |vars|
    ensures |st.table| == n
  {
    if |actions| == 0 then State([], Zeros(n), false)
    else
      var k := |actions| - 1;
      var prev := Checked(actions[..k], vars[..k], n);
      if prev.crashed then prev else CheckOne(prev, actions[k], vars[k], k + 4)
  }

  // An independent account of what the loop computes.

  /** The request changes the state of a slot: an `a` or an `f` on an id inside the table. */
  predicate Sets(action: seq<char>, v: int, n: nat)
  {
    (action == "a" || action == "f") && InRange(v, n)
  }

  /** Slot `i` after the requests: allocated exactly when the last `a` or `f` on it is an `a`. */
  function LastState(actions: seq<seq<char>>, vars: seq<int>, n: nat, i: nat): (s: int)
    requires |actions| == |vars|
    ensures s == 0 || s == 1
  {
    if |actions| == 0 then 0
    else
      var k := |actions| - 1;
      if Sets(actions[k], vars[k], n) && Slot(vars[k], n) == i then (if actions[k] == "a" then 1 else 0)
      else LastState(actions[..k], vars[..k], n, i)
  }

  /** Some `a`, `f` or `r` names an id outside the table. */
  predicate OutOfRange(actions: seq<seq<char>>, vars: seq<int>, n: nat)
    requires |actions| == |vars|
  {
    exists k :: 0 <= k < |actions| && (actions[k] == "f" || actions[k] == "a" || actions[k] == "r") && !InRange(vars[k], n)
  }

  /** The complaint about request `k`, judged by the state its slot is in after the requests before it. */
  function Complaint(actions: seq<seq<char>>, vars: seq<int>, n: nat, k: nat): seq<Message>
    requires |actions| == |vars| && k < |actions|
  {
    var a, v := actions[k], vars[k];
    if a == "f" || a == "a" || a == "r" then
      if !InRange(v, n) then []
      else
        var s := LastState(actions[..k], vars[..k], n, Slot(v, n));
        if a == "f" && s == 0 then [FreedUnallocated(k + 4)]
        else if a == "a" && s == 1 then [AllocatedTwice(k + 4)]
        else if a == "r" && s == 0 then [ReallocUnallocated(k + 4)]
        else []
    else [InvalidAction(a, k + 4)]
  }

  /** Every complaint about the first `m` requests, in request order. */
  function Complaints(actions: seq<seq<char>>, vars: seq<int>, n: nat, m: nat): (ms: seq<Message>)
    requires |actions| == |vars| && m <= |actions|
  {
    if m == 0 then [] else Complaints(actions, vars, n, m - 1) + Complaint(actions, vars, n, m - 1)
  }

  /** The loop's table is the last-`a`-or-`f` account, slot by slot, until an exception ends it. */
  lemma {:induction false} TableIsLastState(actions: seq<seq<char>>, vars: seq<int>, n: nat)
    requires |actions| == |vars|
    ensures var st := Checked(actions, vars, n);
      (st.crashed <==> OutOfRange(actions, vars, n))
      && (!st.crashed ==> forall i :: 0 <= i < n ==> st.table[i] == LastState(actions, vars, n, i))
      && (!st.crashed ==> st.msgs == Complaints(actions, vars, n, |actions|))
  {
    if |actions| > 0 {
      var k := |actions| - 1;
      var pa, pv := actions[..k], vars[..k];
      TableIsLastState(pa, pv, n);
      var prev := Checked(pa, pv, n);
      ComplaintsPrefix(actions, vars, n, k);
      assert actions[..k + 1] == actions && vars[..k + 1] == vars;
      assert OutOfRange(actions, vars, n) <==>
        OutOfRange(pa, pv, n) || ((actions[k] == "f" || actions[k] == "a" || actions[k] == "r") && !InRange(vars[k], n))
      by {
        if OutOfRange(actions, vars, n) && !OutOfRange(pa, pv, n) {
          var j :| 0 <= j < |actions| && (actions[j] == "f" || actions[j] == "a" || actions[j] == "r") && !InRange(vars[j], n);
          if j < k {
            assert false;
          }
        }
        if OutOfRange(pa, pv, n) {
          var j :| 0 <= j < k && (pa[j] == "f" || pa[j] == "a" || pa[j] == "r") && !InRange(pv[j], n);
          assert actions[j] == pa[j] && vars[j] == pv[j];
        }
      }
    }
  }

  /** The complaints about a prefix of the requests depend only on that prefix. */
  lemma {:induction false} ComplaintsPrefix(actions: seq<seq<char>>, vars: seq<int>, n: nat, k: nat)
    requires |actions| == |vars| && k < |actions|
    ensures Complaints(actions[..k], vars[..k], n, k) == Complaints(actions, vars, n, k)
    decreases k
  {
    if k > 0 {
      ComplaintsPrefix(actions[..k], vars[..k], n, k - 1) by {
        assert actions[..k][..k - 1] == actions[..k - 1];
        assert vars[..k][..k - 1] == vars[..k - 1];
      }
      ComplaintsPrefix(actions, vars, n, k - 1);
      assert actions[..k][..k - 1] == actions[..k - 1] && vars[..k][..k - 1] == vars[..k - 1];
      assert Complaint(actions[..k], vars[..k], n, k - 1) == Complaint(actions, vars, n, k - 1);
    }
  }

  /** Once an exception ends the loop, the later requests change nothing. */
  lemma {:induction false} CrashSticks(actions: seq<seq<char>>, vars: seq<int>, n: nat, m: nat)
    requires |actions| == |vars| && m <= |actions|
    requires Checked(actions[..m], vars[..m], n).crashed
    ensures Checked(actions, vars, n) == Checked(actions[..m], vars[..m], n)
    decreases |actions| - m
  {
    if m < |actions| {
      var k := |actions| - 1;
      assert actions[..k][..m] == actions[..m] && vars[..k][..m] == vars[..m];
      CrashSticks(actions[..k], vars[..k], n, m);
    } else {
      assert actions[..m] == actions && vars[..m] == vars;
    }
  }

  /** The fields of the request lines: `(actions, vars)`, or `None` when a line has too few or a bad id. */
  function Fields(lines: seq<seq<char>>): (r: Option<(seq<seq<char>>, seq<int>)>)
    ensures r.Some? ==> |r.value.0| == |r.value.1| == |lines|
  {
    if |lines| == 0 then Some(([], []))
    else
      var ws := Words(lines[0]);
      var rest := Fields(lines[1..]);
      if |ws| < 2 || PyInt(ws[1]).None? || rest.None? then None
      else Some(([ws[0]] + rest.value.0, [PyInt(ws[1]).value] + rest.value.1))
  }

  /**
   * The whole script on the file's text: the table size from the second
   * non-empty line, the requests from the fifth one on, then the loop.
   */
  function Script(text: seq<char>): (st: State)
  {
    var lines := NonEmptyParts(SplitOn(text, '\n'));
    if |lines| < 2 || PyInt(lines[1]).None? then State([], [], true)
    else
      var ops := if |lines| < 4 then [] else lines[4..];
      match Fields(ops)
      case None => State([], Zeros(PyInt(lines[1]).value), true)
      case Some((actions, vars)) =>
        var n := PyInt(lines[1]).value;
        Checked(actions, vars, if n < 0 then 0 else n)
  }

  /** The script's loop over the requests, updating the table `alloc` in place. */
  method CheckRequests(actions: seq<seq<char>>, vars: seq<int>, alloc: array<int>) returns (msgs: seq<Message>, crashed: bool)
    requires |actions| == |vars|
    requires forall i :: 0 <= i < alloc.Length ==> alloc[i] == 0
    modifies alloc
    ensures Checked(actions, vars, alloc.Length) == State(msgs, alloc[..], crashed)
  {
    msgs, crashed := [], false;
    assert alloc[..] == Zeros(alloc.Length);
    var n := alloc.Length;
    var k := 0;
    while k < |actions|
      invariant 0 <= k <= |actions|
      invariant !crashed
      invariant Checked(actions[..k], vars[..k], n) == State(msgs, alloc[..], false)
    {
      var a, v := actions[k], vars[k];
      assert actions[..k + 1][..k] == actions[..k] && vars[..k + 1][..k] == vars[..k];
      if a == "f" || a == "a" || a == "r" {
        if !(-n <= v < n) {
          crashed := true;
          CrashSticks(actions, vars, n, k + 1);
          return;
        }
        var i := if v < 0 then v + n else v;
        if a == "f" {
          if alloc[i] == 0 {
            msgs := msgs + [FreedUnallocated(k + 4)];
          }
          alloc[i] := 0;
        } else if a == "a" {
          if alloc[i] == 1 {
            msgs := msgs + [AllocatedTwice(k + 4)];
          }
          alloc[i] := 1;
        } else if alloc[i] == 0 {
          msgs := msgs + [ReallocUnallocated(k + 4)];
        }
      } else {
        msgs := msgs + [InvalidAction(a, k + 4)];
      }
      k := k + 1;
    }
    assert actions[..k] == actions && vars[..k] == vars;
  }

  /**
   * The script run on a file's text: the table is allocated with the size
   * read from the second non-empty line, then the loop runs.
   */
  method CheckFile(text: seq<char>) returns (st: State)
    ensures st == Script(text)
  {
    var lines := NonEmptyParts(SplitOn(text, '\n'));
    if |lines| < 2 || PyInt(lines[1]).None? {
      return State([], [], true);
    }
    var count := PyInt(lines[1]).value;
    var ops := if |lines| < 4 then [] else lines[4..];
    var fields := Fields(ops);
    if fields.None? {
      return State([], Zeros(count), true);
    }
    var alloc := new int[if count < 0 then 0 else count](_ => 0);
    var actions, vars := fields.value.0, fields.value.1;
    var msgs, crashed := CheckRequests(actions, vars, alloc);
    st := State(msgs, alloc[..], crashed);
  }

  /** Each complaint names the file line of its request (the request's position plus four), in file order. */
  lemma {:induction false} ComplaintLines(actions: seq<seq<char>>, vars: seq<int>, n: nat, m: nat)
    requires |actions| == |vars| && m <= |actions|
    ensures var ms := Complaints(actions, vars, n, m);
      |ms| <= m
      && (forall j :: 0 <= j < |ms| ==> 4 <= ms[j].line < m + 4)
      && (forall j, k :: 0 <= j < k < |ms| ==> ms[j].line < ms[k].line)
  {
    if m > 0 {
      ComplaintLines(actions, vars, n, m - 1);
    }
  }
}
