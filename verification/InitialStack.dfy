/** process::build_initial_stack of kernel/process.cpp: argc, argv and envp laid out at the top
    of the user stack as section 3.4.1 of the System V AMD64 psABI asks, and a reader that
    finds them there. */
module InitialStack {
  import opened Bytes

  const STACK_VIRT: nat := 0x7FFF_F000
  const STACK_SIZE: nat := 16384
  const MAX_ARGS: nat := 16
  const MAX_ENVS: nat := 8
  const MAX_ARG_BYTES: nat := 2048

  /** A C string without its terminator. */
  type CString = seq<Byte>

  predicate NulFree(s: CString) {
    forall i | 0 <= i < |s| :: s[i] != 0
  }

  predicate AllNulFree(ss: seq<CString>) {
    forall i | 0 <= i < |ss| :: NulFree(ss[i])
  }

  // ----- the reader

  /** The string at an offset, up to the first NUL. */
  function StringAt(win: seq<Byte>, at: nat): CString
    decreases |win| - at
  {
    if at >= |win| || win[at] == 0 then [] else [win[at]] + StringAt(win, at + 1)
  }

  /** A list of pointers up to the first NULL. */
  function PointersAt(win: seq<Byte>, at: nat): seq<nat>
    decreases |win| - at
  {
    if at + 8 > |win| || Le(win, at, 8) == 0 then [] else [Le(win, at, 8)] + PointersAt(win, at + 8)
  }

  function StringOf(win: seq<Byte>, p: nat): CString {
    if p >= STACK_VIRT then StringAt(win, p - STACK_VIRT) else []
  }

  /** The strings of a list of pointers into the stack. */
  function Strings(win: seq<Byte>, ps: seq<nat>): seq<CString> {
    seq(|ps|, (i: nat) requires i < |ps| => StringOf(win, ps[i]))
  }

  datatype Start = Start(argc: nat, argv: seq<CString>, envp: seq<CString>, auxType: nat, auxValue: nat)

  /** What a program finds at its stack pointer. */
  function ReadStart(win: seq<Byte>, sp: nat): Start {
    if sp < STACK_VIRT || sp - STACK_VIRT + 8 > |win| then Start(0, [], [], 0, 0)
    else
      var at := sp - STACK_VIRT;
      var argv := PointersAt(win, at + 8);
      var envAt := at + 8 + 8 * (|argv| + 1);
      var envp := PointersAt(win, envAt);
      var aux := envAt + 8 * (|envp| + 1);
      Start(Le(win, at, 8), Strings(win, argv), Strings(win, envp),
            if aux + 16 > |win| then 1 else Le(win, aux, 8), if aux + 16 > |win| then 1 else Le(win, aux + 8, 8))
  }

  // ----- the layout

  /** The strings one after the other, each with its NUL. */
  function Flat(ss: seq<CString>): seq<Byte> {
    if ss == [] then [] else Flat(ss[..|ss| - 1]) + ss[|ss| - 1] + [0]
  }

  function WordBytes(ws: seq<nat>): (r: seq<Byte>)
    ensures |r| == 8 * |ws|
  {
    if ws == [] then [] else WordBytes(ws[..|ws| - 1]) + LeBytes(ws[|ws| - 1], 8)
  }

  /** Words from offset `at`, strings from offset `base`, zeros behind either, nothing below. */
  function Image(was: seq<Byte>, at: nat, ws: seq<nat>, base: nat, ss: seq<CString>): seq<Byte>
    requires at + 8 * |ws| <= base && base + |Flat(ss)| <= |was|
  {
    was[..at] + WordBytes(ws) + Zeros(base - at - 8 * |ws|) + Flat(ss) + Zeros(|was| - base - |Flat(ss)|)
  }

  // ----- writing words and strings

  function Splice(m: seq<Byte>, at: nat, bytes: seq<Byte>): seq<Byte>
    requires at + |bytes| <= |m|
  {
    m[..at] + bytes + m[at + |bytes|..]
  }

  method PutBytes(window: array<Byte>, at: nat, bytes: seq<Byte>)
    requires at + |bytes| <= window.Length
    modifies window
    ensures window[..] == Splice(old(window[..]), at, bytes)
  {
    ghost var was := window[..];
    for n := 0 to |bytes|
      invariant window[..] == Splice(was, at, bytes[..n])
    {
      Stored(was, at, bytes[..n], bytes[n]);
      window[at + n] := bytes[n];
      assert bytes[..n + 1] == bytes[..n] + [bytes[n]];
    }
    assert bytes[..|bytes|] == bytes;
  }

  /** One more byte in the middle of a sequence. */
  lemma {:induction false} Stored(was: seq<Byte>, at: nat, done: seq<Byte>, x: Byte)
    requires at + |done| < |was|
    ensures Splice(was, at, done)[at + |done| := x] == Splice(was, at, done + [x])
  {
  }

  method PutWord(window: array<Byte>, at: nat, value: nat)
    requires at + 8 <= window.Length
    modifies window
    ensures window[..] == Splice(old(window[..]), at, LeBytes(value, 8))
  {
    PutBytes(window, at, LeBytes(value, 8));
  }

  method PutString(window: array<Byte>, at: nat, s: CString)
    requires at + |s| + 1 <= window.Length
    modifies window
    ensures window[..] == Splice(old(window[..]), at, s + [0])
  {
    PutBytes(window, at, s + [0]);
  }

  lemma {:induction false} WordsGrow(ws: seq<nat>, w: nat)
    ensures WordBytes(ws + [w]) == WordBytes(ws) + LeBytes(w, 8)
  {
    assert (ws + [w])[..|ws|] == ws;
  }

  lemma {:induction false} FlatGrow(ss: seq<CString>, s: CString)
    ensures Flat(ss + [s]) == Flat(ss) + s + [0]
  {
    assert (ss + [s])[..|ss|] == ss;
  }

  lemma {:induction false} ImageWord(was: seq<Byte>, at: nat, ws: seq<nat>, base: nat, ss: seq<CString>, w: nat)
    requires at + 8 * |ws| + 8 <= base && base + |Flat(ss)| <= |was|
    ensures var m, k := Image(was, at, ws, base, ss), at + 8 * |ws|;
            Splice(m, k, LeBytes(w, 8)) == Image(was, at, ws + [w], base, ss)
  {
    WordsGrow(ws, w);
  }

  lemma {:induction false} ImageString(was: seq<Byte>, at: nat, ws: seq<nat>, base: nat, ss: seq<CString>, s: CString)
    requires at + 8 * |ws| <= base && base + |Flat(ss)| + |s| + 1 <= |was|
    ensures |Flat(ss + [s])| == |Flat(ss)| + |s| + 1
    ensures var m, k := Image(was, at, ws, base, ss), base + |Flat(ss)|;
            Splice(m, k, s + [0]) == Image(was, at, ws, base, ss + [s])
  {
    FlatGrow(ss, s);
  }

  // ----- the builder

  predicate Fits(argv: seq<CString>, envp: seq<CString>) {
    && |argv| <= MAX_ARGS && |envp| <= MAX_ENVS
    && |Flat(argv + envp)| + 8 * (|argv| + |envp| + 5) + 16 <= MAX_ARG_BYTES
  }

  lemma {:induction false} FlatAppend(ss: seq<CString>, tt: seq<CString>)
    ensures Flat(ss + tt) == Flat(ss) + Flat(tt)
    decreases |tt|
  {
    if tt == [] {
      assert ss + tt == ss;
    } else {
      var n := |tt| - 1;
      assert ss + tt == (ss + tt[..n]) + [tt[n]];
      FlatGrow(ss + tt[..n], tt[n]);
      FlatAppend(ss, tt[..n]);
      assert Flat(ss) + (Flat(tt[..n]) + tt[n] + [0]) == Flat(ss) + Flat(tt[..n]) + tt[n] + [0];
    }
  }

  lemma {:induction false} FlatPrefix(ss: seq<CString>, n: nat)
    requires n <= |ss|
    ensures |Flat(ss[..n])| <= |Flat(ss)|
  {
    assert ss == ss[..n] + ss[n..];
    FlatAppend(ss[..n], ss[n..]);
  }

  /** The bytes the strings take, as long as they stay within the limit. */
  method CountBytes(ss: seq<CString>, before: nat) returns (ok: bool, total: nat)
    requires before <= MAX_ARG_BYTES
    ensures ok <==> before + |Flat(ss)| <= MAX_ARG_BYTES
    ensures ok ==> total == before + |Flat(ss)|
  {
    total := before;
    for i := 0 to |ss|
      invariant total == before + |Flat(ss[..i])| <= MAX_ARG_BYTES
    {
      assert ss[..i + 1] == ss[..i] + [ss[i]];
      FlatGrow(ss[..i], ss[i]);
      FlatPrefix(ss, i + 1);
      total := total + |ss[i]| + 1;
      if total > MAX_ARG_BYTES { return false, total; }
    }
    assert ss[..|ss|] == ss;
    ok := true;
  }

  /** The addresses of the strings `ss` laid out behind the strings `done`. */
  function Pointers(base: nat, done: seq<CString>, ss: seq<CString>): (r: seq<nat>)
    ensures |r| == |ss|
  {
    seq(|ss|, (i: nat) requires i < |ss| => STACK_VIRT + base + |Flat(done + ss[..i])|)
  }

  lemma {:induction false} PointersGrow(base: nat, done: seq<CString>, ss: seq<CString>, i: nat)
    requires i < |ss|
    ensures Pointers(base, done, ss[..i + 1])
         == Pointers(base, done, ss[..i]) + [STACK_VIRT + base + |Flat(done + ss[..i])|]
    ensures done + ss[..i + 1] == done + ss[..i] + [ss[i]]
  {
    assert forall k | 0 <= k <= i :: ss[..i + 1][..k] == ss[..k];
    assert forall k | 0 <= k < i :: ss[..i][..k] == ss[..k];
  }

  /** Each string and the word that points to it. */
  method PutStrings(window: array<Byte>, ss: seq<CString>, wordCursor: nat, strCursor: nat,
                    ghost was: seq<Byte>, ghost at: nat, ghost ws: seq<nat>, ghost base: nat, ghost done: seq<CString>)
    returns (word: nat, str: nat)
    requires at + 8 * (|ws| + |ss|) <= base && base + |Flat(done + ss)| <= |was|
    requires wordCursor == at + 8 * |ws| && strCursor == base + |Flat(done)|
    requires base + |Flat(done)| <= |was| && window[..] == Image(was, at, ws, base, done)
    modifies window
    ensures word == at + 8 * (|ws| + |ss|) && str == base + |Flat(done + ss)|
    ensures window[..] == Image(was, at, ws + Pointers(base, done, ss), base, done + ss)
  {
    word, str := wordCursor, strCursor;
    assert ws + Pointers(base, done, ss[..0]) == ws && done + ss[..0] == done;
    for i := 0 to |ss|
      invariant PartWritten(window[..], word, str, was, at, ws, base, done, ss, i)
    {
      PutEach(window, ss, i, word, str, was, at, ws, base, done);
      word, str := word + 8, str + |ss[i]| + 1;
    }
    assert ss[..|ss|] == ss;
  }

  /** The first i strings of `ss` and the words that point to them are written. */
  ghost predicate PartWritten(m: seq<Byte>, word: nat, str: nat, was: seq<Byte>, at: nat, ws: seq<nat>, base: nat,
                              done: seq<CString>, ss: seq<CString>, i: nat)
    requires i <= |ss| && at + 8 * (|ws| + |ss|) <= base
  {
    && word == at + 8 * (|ws| + i) && str == base + |Flat(done + ss[..i])| <= |was|
    && m == Image(was, at, ws + Pointers(base, done, ss[..i]), base, done + ss[..i])
  }

  method PutEach(window: array<Byte>, ss: seq<CString>, i: nat, word: nat, str: nat,
                 ghost was: seq<Byte>, ghost at: nat, ghost ws: seq<nat>, ghost base: nat, ghost done: seq<CString>)
    requires i < |ss| && at + 8 * (|ws| + |ss|) <= base && base + |Flat(done + ss)| <= |was|
    requires PartWritten(window[..], word, str, was, at, ws, base, done, ss, i)
    modifies window
    ensures PartWritten(window[..], word + 8, str + |ss[i]| + 1, was, at, ws, base, done, ss, i + 1)
  {
    RoomLeft(done, ss, i);
    EntryNext(ws, base, done, ss, i);
    PutEntry(window, ss[i], word, str, was, at, ws + Pointers(base, done, ss[..i]), base, done + ss[..i]);
  }

  lemma {:induction false} EntryNext(ws: seq<nat>, base: nat, done: seq<CString>, ss: seq<CString>, i: nat)
    requires i < |ss|
    ensures done + ss[..i + 1] == done + ss[..i] + [ss[i]]
    ensures ws + Pointers(base, done, ss[..i + 1])
         == ws + Pointers(base, done, ss[..i]) + [STACK_VIRT + (base + |Flat(done + ss[..i])|)]
  {
    PointersGrow(base, done, ss, i);
  }

  method PutEntry(window: array<Byte>, s: CString, word: nat, str: nat,
                  ghost was: seq<Byte>, ghost at: nat, ghost ws: seq<nat>, ghost base: nat, ghost ss: seq<CString>)
    requires at + 8 * |ws| + 8 <= base && base + |Flat(ss)| + |s| + 1 <= |was|
    requires word == at + 8 * |ws| && str == base + |Flat(ss)| && window[..] == Image(was, at, ws, base, ss)
    modifies window
    ensures |Flat(ss + [s])| == |Flat(ss)| + |s| + 1
    ensures window[..] == Image(was, at, ws + [STACK_VIRT + str], base, ss + [s])
  {
    PutText(window, str, s, was, at, ws, base, ss);
    PutNext(window, word, STACK_VIRT + str, was, at, ws, base, ss + [s]);
  }

  method PutText(window: array<Byte>, str: nat, s: CString,
                 ghost was: seq<Byte>, ghost at: nat, ghost ws: seq<nat>, ghost base: nat, ghost ss: seq<CString>)
    requires at + 8 * |ws| <= base && base + |Flat(ss)| + |s| + 1 <= |was|
    requires str == base + |Flat(ss)| && window[..] == Image(was, at, ws, base, ss)
    modifies window
    ensures |Flat(ss + [s])| == |Flat(ss)| + |s| + 1
    ensures window[..] == Image(was, at, ws, base, ss + [s])
  {
    ImageString(was, at, ws, base, ss, s);
    PutString(window, str, s);
  }

  method PutNext(window: array<Byte>, word: nat, value: nat,
                 ghost was: seq<Byte>, ghost at: nat, ghost ws: seq<nat>, ghost base: nat, ghost ss: seq<CString>)
    requires at + 8 * |ws| + 8 <= base && base + |Flat(ss)| <= |was|
    requires word == at + 8 * |ws| && window[..] == Image(was, at, ws, base, ss)
    modifies window
    ensures window[..] == Image(was, at, ws + [value], base, ss)
  {
    ImageWord(was, at, ws, base, ss, value);
    PutWord(window, word, value);
  }

  lemma {:induction false} RoomLeft(done: seq<CString>, ss: seq<CString>, i: nat)
    requires i < |ss|
    ensures |Flat(done + ss[..i])| + |ss[i]| + 1 <= |Flat(done + ss)|
  {
    FlatGrow(done + ss[..i], ss[i]);
    FlatPrefix(done + ss, |done| + i + 1);
    assert (done + ss)[..|done| + i + 1] == done + ss[..i] + [ss[i]];
  }

  /** The words of the finished stack. */
  function StartWords(base: nat, argv: seq<CString>, envp: seq<CString>): (r: seq<nat>)
    ensures |r| == |argv| + |envp| + 5
  {
    [|argv|] + Pointers(base, [], argv) + [0] + Pointers(base, argv, envp) + [0, 0, 0]
  }

  method PutWords(window: array<Byte>, word: nat, values: seq<nat>,
                  ghost was: seq<Byte>, ghost at: nat, ghost ws: seq<nat>, ghost base: nat, ghost ss: seq<CString>)
    requires at + 8 * (|ws| + |values|) <= base && base + |Flat(ss)| <= |was|
    requires word == at + 8 * |ws| && window[..] == Image(was, at, ws, base, ss)
    modifies window
    ensures window[..] == Image(was, at, ws + values, base, ss)
  {
    assert ws + values[..0] == ws;
    for i := 0 to |values|
      invariant window[..] == Image(was, at, ws + values[..i], base, ss)
    {
      ghost var so := ws + values[..i];
      PutNext(window, word + 8 * i, values[i], was, at, so, base, ss);
      assert so + [values[i]] == ws + values[..i + 1];
    }
    assert values[..|values|] == values;
  }

  method Fill(window: array<Byte>, at: nat, base: nat, argv: seq<CString>, envp: seq<CString>)
    requires at + 8 * (|argv| + |envp| + 5) <= base && base + |Flat(argv + envp)| == window.Length
    modifies window
    ensures window[..] == Image(old(window[..]), at, StartWords(base, argv, envp), base, argv + envp)
  {
    ghost var was := window[..];
    Zero(window, at);
    assert Flat([]) == [];
    assert window[..] == Image(was, at, [], base, []);
    FlatPrefix(argv + envp, |argv|);
    assert (argv + envp)[..|argv|] == argv && [] + argv == argv;
    PutWords(window, at, [|argv|], was, at, [], base, []);
    ghost var w1 := [] + [|argv|];
    assert w1 == [|argv|];
    var word, str := PutStrings(window, argv, at + 8, base, was, at, w1, base, []);
    ghost var w2 := w1 + Pointers(base, [], argv);
    PutWords(window, word, [0], was, at, w2, base, argv);
    word, str := PutStrings(window, envp, word + 8, str, was, at, w2 + [0], base, argv);
    ghost var w3 := w2 + [0] + Pointers(base, argv, envp);
    PutWords(window, word, [0, 0, 0], was, at, w3, base, argv + envp);
  }

  method Zero(window: array<Byte>, at: nat)
    requires at <= window.Length
    modifies window
    ensures window[..] == old(window[..at]) + Zeros(window.Length - at)
  {
    for a := at to window.Length
      invariant window[..at] == old(window[..at]) && forall i | at <= i < a :: window[i] == 0
    {
      window[a] := 0;
    }
    assert window[at..] == Zeros(window.Length - at);
    assert window[..] == window[..at] + window[at..];
  }

  /** A program started on the stack built for argv and envp finds exactly those, terminated,
      with an aligned stack pointer; nothing below the stack pointer is written. */
  method BuildInitialStack(window: array<Byte>, argv: seq<CString>, envp: seq<CString>) returns (ok: bool, sp: nat)
    requires AllNulFree(argv) && AllNulFree(envp)
    modifies window
    ensures ok <==> window.Length == STACK_SIZE && Fits(argv, envp)
    ensures !ok ==> window[..] == old(window[..])
    ensures ok ==>
      && sp % 16 == 0 && STACK_VIRT <= sp < STACK_VIRT + STACK_SIZE
      && window[..sp - STACK_VIRT] == old(window[..])[..sp - STACK_VIRT]
      && ReadStart(window[..], sp) == Start(|argv|, argv, envp, 0, 0)
  {
    var base;
    ok, base, sp := Measure(argv, envp);
    ok := ok && window.Length == STACK_SIZE;
    if !ok { return; }
    ghost var was := window[..];
    Fill(window, sp - STACK_VIRT, base, argv, envp);
    ReadBack(was, sp - STACK_VIRT, base, argv, envp);
  }

  /** Lines 101-129: where the strings and the words go, if they fit. */
  method Measure(argv: seq<CString>, envp: seq<CString>) returns (ok: bool, base: nat, sp: nat)
    ensures ok <==> Fits(argv, envp)
    ensures ok ==>
      && base + |Flat(argv + envp)| == STACK_SIZE && sp % 16 == 0 && STACK_VIRT <= sp < STACK_VIRT + STACK_SIZE
      && sp - STACK_VIRT + 8 * (|argv| + |envp| + 5) <= base
  {
    ok, base, sp := false, 0, 0;
    if |argv| > MAX_ARGS || |envp| > MAX_ENVS { return; }
    FlatAppend(argv, envp);
    var fits, bytes := CountBytes(argv, 0);
    if !fits { return; }
    fits, bytes := CountBytes(envp, bytes);
    if !fits { return; }
    var pointerBytes := 8 * (|argv| + |envp| + 5);
    if bytes + pointerBytes + 16 > MAX_ARG_BYTES { return; }
    base := STACK_SIZE - bytes;
    ok, sp := true, (STACK_VIRT + base - pointerBytes) / 16 * 16;
  }

  // ----- reading back

  /** The words from an offset on. */
  ghost predicate HoldsWords(win: seq<Byte>, at: nat, ws: seq<nat>) {
    at + 8 * |ws| <= |win| && forall i {:trigger ws[i]} | 0 <= i < |ws| :: Le(win, at + 8 * i, 8) == ws[i]
  }

  lemma {:induction false} WordBytesAt(ws: seq<nat>, i: nat)
    requires i < |ws|
    ensures WordBytes(ws)[8 * i..8 * i + 8] == LeBytes(ws[i], 8)
  {
    if i < |ws| - 1 {
      WordBytesAt(ws[..|ws| - 1], i);
    }
  }

  lemma {:induction false} WordsHeld(win: seq<Byte>, at: nat, ws: seq<nat>)
    requires at + 8 * |ws| <= |win| && win[at..at + 8 * |ws|] == WordBytes(ws)
    requires forall i | 0 <= i < |ws| :: ws[i] < Pow256(8)
    ensures HoldsWords(win, at, ws)
  {
    forall i | 0 <= i < |ws| ensures Le(win, at + 8 * i, 8) == ws[i] {
      WordBytesAt(ws, i);
      SliceOfSlice(win, at, 8 * |ws|, 8 * i, 8);
      LeRound(win, at + 8 * i, ws[i], 8);
    }
  }

  lemma {:induction false} PointersRead(win: seq<Byte>, at: nat, ps: seq<nat>)
    requires HoldsWords(win, at, ps + [0]) && forall i | 0 <= i < |ps| :: ps[i] != 0
    ensures PointersAt(win, at) == ps
    decreases |ps|
  {
    var ws := ps + [0];
    assert Le(win, at + 8 * 0, 8) == ws[0];
    if ps != [] {
      assert ws[1..] == ps[1..] + [0];
      forall i | 0 <= i < |ws[1..]| ensures Le(win, at + 8 + 8 * i, 8) == ws[1..][i] {
        assert Le(win, at + 8 * (i + 1), 8) == ws[i + 1];
      }
      PointersRead(win, at + 8, ps[1..]);
    }
  }

  lemma {:induction false} StringRead(win: seq<Byte>, at: nat, s: CString)
    requires at + |s| + 1 <= |win| && win[at..at + |s| + 1] == s + [0] && NulFree(s)
    ensures StringAt(win, at) == s
    decreases |s|
  {
    assert win[at] == (s + [0])[0];
    if s != [] {
      assert win[at + 1..at + 1 + |s|] == win[at..at + |s| + 1][1..] == s[1..] + [0];
      StringRead(win, at + 1, s[1..]);
    }
  }

  lemma {:induction false} FlatAt(ss: seq<CString>, k: nat)
    requires k < |ss|
    ensures |Flat(ss[..k])| + |ss[k]| + 1 <= |Flat(ss)|
    ensures Flat(ss)[|Flat(ss[..k])|..|Flat(ss[..k])| + |ss[k]| + 1] == ss[k] + [0]
  {
    assert ss == ss[..k] + ([ss[k]] + ss[k + 1..]);
    assert ss == (ss[..k] + [ss[k]]) + ss[k + 1..];
    FlatGrow(ss[..k], ss[k]);
    FlatAppend(ss[..k] + [ss[k]], ss[k + 1..]);
  }

  lemma {:induction false} StringsRead(win: seq<Byte>, base: nat, done: seq<CString>, ss: seq<CString>,
                                       rest: seq<CString>)
    requires AllNulFree(ss) && base + |Flat(done + ss + rest)| == |win| && win[base..] == Flat(done + ss + rest)
    ensures Strings(win, Pointers(base, done, ss)) == ss
  {
    var got := Strings(win, Pointers(base, done, ss));
    assert |got| == |ss|;
    forall i | 0 <= i < |ss| ensures got[i] == ss[i] {
      StringReadAt(win, base, done, ss, rest, i);
    }
  }

  lemma {:induction false} StringReadAt(win: seq<Byte>, base: nat, done: seq<CString>, ss: seq<CString>,
                                        rest: seq<CString>, i: nat)
    requires i < |ss| && NulFree(ss[i]) && base + |Flat(done + ss + rest)| == |win|
             && win[base..] == Flat(done + ss + rest)
    ensures StringOf(win, Pointers(base, done, ss)[i]) == ss[i]
  {
    StringPlace(done, ss, rest, i);
    OneStringRead(win, base, done + ss + rest, |done| + i);
  }

  lemma {:induction false} StringPlace(done: seq<CString>, ss: seq<CString>, rest: seq<CString>, i: nat)
    requires i < |ss|
    ensures (done + ss + rest)[..|done| + i] == done + ss[..i] && (done + ss + rest)[|done| + i] == ss[i]
  {
  }

  lemma {:induction false} OneStringRead(win: seq<Byte>, base: nat, all: seq<CString>, k: nat)
    requires base + |Flat(all)| == |win| && win[base..] == Flat(all) && k < |all| && NulFree(all[k])
    ensures StringAt(win, base + |Flat(all[..k])|) == all[k]
  {
    var n := |Flat(all[..k])|;
    FlatAt(all, k);
    assert win[base..] == win[base..base + |Flat(all)|];
    SliceOfSlice(win, base, |Flat(all)|, n, |all[k]| + 1);
    StringRead(win, base + n, all[k]);
  }

  lemma {:induction false} ReadBack(was: seq<Byte>, at: nat, base: nat, argv: seq<CString>, envp: seq<CString>)
    requires at + 8 * (|argv| + |envp| + 5) <= base && base + |Flat(argv + envp)| == |was| == STACK_SIZE
    requires AllNulFree(argv) && AllNulFree(envp)
    ensures var win := Image(was, at, StartWords(base, argv, envp), base, argv + envp);
            win[..at] == was[..at] && ReadStart(win, STACK_VIRT + at) == Start(|argv|, argv, envp, 0, 0)
  {
    ImageParts(was, at, StartWords(base, argv, envp), base, argv + envp);
    ReadBackFrom(Image(was, at, StartWords(base, argv, envp), base, argv + envp), at, base, argv, envp);
  }

  lemma {:induction false} ReadBackFrom(win: seq<Byte>, at: nat, base: nat, argv: seq<CString>, envp: seq<CString>)
    requires at + 8 * (|argv| + |envp| + 5) <= base && base + |Flat(argv + envp)| == |win| == STACK_SIZE
    requires AllNulFree(argv) && AllNulFree(envp)
    requires win[at..at + 8 * (|argv| + |envp| + 5)] == WordBytes(StartWords(base, argv, envp))
             && win[base..] == Flat(argv + envp)
    ensures ReadStart(win, STACK_VIRT + at) == Start(|argv|, argv, envp, 0, 0)
  {
    WordsSmall(base, argv, envp);
    WordsHeld(win, at, StartWords(base, argv, envp));
    assert [] + argv + envp == argv + envp && argv + envp + [] == argv + envp;
    StringsRead(win, base, [], argv, envp);
    StringsRead(win, base, argv, envp, []);
    ReadStartIs(win, at, base, argv, envp);
  }

  lemma {:induction false} ReadStartIs(win: seq<Byte>, at: nat, base: nat, argv: seq<CString>, envp: seq<CString>)
    requires HoldsWords(win, at, StartWords(base, argv, envp))
    requires Strings(win, Pointers(base, [], argv)) == argv && Strings(win, Pointers(base, argv, envp)) == envp
    ensures ReadStart(win, STACK_VIRT + at) == Start(|argv|, argv, envp, 0, 0)
  {
    ListsRead(win, at, base, argv, envp);
  }

  lemma {:induction false} ImageParts(was: seq<Byte>, at: nat, ws: seq<nat>, base: nat, ss: seq<CString>)
    requires at + 8 * |ws| <= base && base + |Flat(ss)| == |was|
    ensures var win := Image(was, at, ws, base, ss);
            |win| == |was| && win[..at] == was[..at] && win[at..at + 8 * |ws|] == WordBytes(ws)
                && win[base..] == Flat(ss)
  {
  }

  lemma {:induction false} ListsRead(win: seq<Byte>, at: nat, base: nat, argv: seq<CString>, envp: seq<CString>)
    requires HoldsWords(win, at, StartWords(base, argv, envp))
    ensures Le(win, at, 8) == |argv|
    ensures PointersAt(win, at + 8) == Pointers(base, [], argv)
    ensures PointersAt(win, at + 8 * (|argv| + 2)) == Pointers(base, argv, envp)
    ensures Le(win, at + 8 * (|argv| + |envp| + 3), 8) == 0 && Le(win, at + 8 * (|argv| + |envp| + 4), 8) == 0
  {
    var ws := StartWords(base, argv, envp);
    var ps, qs := Pointers(base, [], argv), Pointers(base, argv, envp);
    StartParts(base, argv, envp);
    Sublist(win, at, ws, 1, ps + [0]);
    Sublist(win, at, ws, |argv| + 2, qs + [0]);
    PointersRead(win, at + 8, ps);
    PointersRead(win, at + 8 * (|argv| + 2), qs);
  }

  lemma {:induction false} StartParts(base: nat, argv: seq<CString>, envp: seq<CString>)
    ensures var ws, n := StartWords(base, argv, envp), |argv| + |envp|;
            && ws[0] == |argv| && ws[n + 3] == 0 && ws[n + 4] == 0
            && ws[1..|argv| + 2] == Pointers(base, [], argv) + [0]
            && ws[|argv| + 2..n + 3] == Pointers(base, argv, envp) + [0]
  {
  }

  lemma {:induction false} Sublist(win: seq<Byte>, at: nat, ws: seq<nat>, k: nat, part: seq<nat>)
    requires HoldsWords(win, at, ws) && k + |part| <= |ws| && ws[k..k + |part|] == part
    ensures HoldsWords(win, at + 8 * k, part)
  {
    forall i | 0 <= i < |part| ensures Le(win, at + 8 * k + 8 * i, 8) == part[i] {
      assert Le(win, at + 8 * (k + i), 8) == ws[k + i];
    }
  }

  lemma {:induction false} WordsSmall(base: nat, argv: seq<CString>, envp: seq<CString>)
    requires base + |Flat(argv + envp)| <= STACK_SIZE && |argv| <= STACK_SIZE
    ensures forall i | 0 <= i < |argv| + |envp| + 5 :: StartWords(base, argv, envp)[i] < Pow256(8)
  {
    var ws := StartWords(base, argv, envp);
    assert Pow256(8) == 0x1_0000_0000_0000_0000;
    FlatAppend(argv, envp);
    forall i | 0 <= i < |argv| ensures Pointers(base, [], argv)[i] <= STACK_VIRT + STACK_SIZE {
      FlatPrefix(argv, i);
      assert [] + argv[..i] == argv[..i];
    }
    forall i | 0 <= i < |envp| ensures Pointers(base, argv, envp)[i] <= STACK_VIRT + STACK_SIZE {
      FlatPrefix(argv + envp, |argv| + i);
      assert (argv + envp)[..|argv| + i] == argv + envp[..i];
    }
  }
}
