/**
 * Model of package `misc` (misc/misc.go): the nil-safe string helpers, `Ternary`,
 * and `ConcatenateErrors`, which numbers the non-nil errors of a list into one message.
 *
 * A Go `*string` is an `Option<string>` (None is nil); an `error` is an
 * `Option<string>` holding its message; the variadic error list, which is nil
 * when the function is called with no arguments, is an `Option<seq<...>>`.
 */
module Misc {
  import opened Wrappers
  import Text

  /** `IsStringSet`: true iff the pointer is non-nil and the string is non-empty. */
  predicate IsStringSet(p: Option<string>)
    ensures IsStringSet(p) <==> p.Some? && |p.value| > 0
  {
    match p
    case None => false
    case Some(s) => s != ""
  }

  /** `SafeString`: the pointer itself when it is set, otherwise a pointer to the empty string. */
  function SafeString(test: Option<string>): (safe: Option<string>)
    ensures safe.Some?
    ensures IsStringSet(test) ==> safe == test
    ensures !IsStringSet(test) ==> safe == Some("")
  {
    if IsStringSet(test) then test else Some("")
  }

  /** SafeString never changes whether a string is set, and applying it twice is applying it once. */
  lemma SafeStringKeepsSetness(test: Option<string>)
    ensures IsStringSet(SafeString(test)) == IsStringSet(test)
    ensures SafeString(SafeString(test)) == SafeString(test)
    ensures SafeString(test).value == (if test.Some? then test.value else "")
  {
  }

  /** `Ternary`: `trueVal` when the key holds, `falseVal` otherwise. */
  function Ternary<T>(key: bool, trueVal: T, falseVal: T): (val: T)
    ensures key ==> val == trueVal
    ensures !key ==> val == falseVal
  {
    if key then trueVal else falseVal
  }

  // ---------------------------------------------------------------- ConcatenateErrors

  /** The messages of the non-nil errors, in argument order. */
  function Messages(errs: seq<Option<string>>): seq<string>
  {
    if errs == [] then []
    else Messages(errs[..|errs| - 1]) + (match errs[|errs| - 1] case None => [] case Some(m) => [m])
  }

  /** One numbered line: `"\n" + %02d + ".\t" + message`. */
  function ErrorEntry(number: nat, msg: string): (r: string)
    ensures |r| > 0 && r[0] == '\n'
  {
    "\n" + Text.Pad2(number) + ".\t" + msg
  }

  /** The messages numbered consecutively from `first`. */
  function Numbered(msgs: seq<string>, first: nat): string
  {
    if msgs == [] then ""
    else Numbered(msgs[..|msgs| - 1], first) + ErrorEntry(first + |msgs| - 1, msgs[|msgs| - 1])
  }

  /** What `ConcatenateErrors` returns: nil, or the numbered messages of the non-nil errors. */
  function ConcatenatedErrors(errList: Option<seq<Option<string>>>): Option<string>
  {
    match errList
    case None => None
    case Some(errs) =>
      var text := Numbered(Messages(errs), 1);
      if |text| > 0 then Some(text) else None
  }

  /** `ConcatenateErrors`: the loop with counter `ix` and a string builder. */
  method ConcatenateErrors(errList: Option<seq<Option<string>>>) returns (err: Option<string>)
    ensures err == ConcatenatedErrors(errList)
  {
    if errList.None? {
      return None;
    }
    var errs := errList.value;
    var sb := "";
    var ix := 1;
    var i := 0;
    while i < |errs|
      invariant 0 <= i <= |errs|
      invariant ix == |Messages(errs[..i])| + 1
      invariant sb == Numbered(Messages(errs[..i]), 1)
    {
      assert errs[..i + 1][..i] == errs[..i];
      if errs[i].Some? {
        assert Messages(errs[..i + 1]) == Messages(errs[..i]) + [errs[i].value];
        NumberedSnoc(Messages(errs[..i]), errs[i].value, 1);
        sb := sb + ErrorEntry(ix, errs[i].value);
        ix := ix + 1;
      } else {
        assert Messages(errs[..i + 1]) == Messages(errs[..i]);
      }
      i := i + 1;
    }
    assert errs[..i] == errs;
    if |sb| > 0 {
      err := Some(sb);
    } else {
      err := None;
    }
  }

  predicate AllNil(errs: seq<Option<string>>) {
    forall i :: 0 <= i < |errs| ==> errs[i].None?
  }

  lemma {:induction false} MessagesEmptyIffAllNil(errs: seq<Option<string>>)
    ensures Messages(errs) == [] <==> AllNil(errs)
  {
    if errs != [] {
      var p := errs[..|errs| - 1];
      MessagesEmptyIffAllNil(p);
      if AllNil(errs) {
        assert AllNil(p) by {
          forall i | 0 <= i < |p| ensures p[i].None? { assert p[i] == errs[i]; }
        }
      }
      if AllNil(p) && errs[|errs| - 1].None? {
        forall i | 0 <= i < |errs| ensures errs[i].None? {
          if i < |p| { assert errs[i] == p[i]; }
        }
      }
    }
  }

  lemma {:induction false} NumberedEmptyIff(msgs: seq<string>, first: nat)
    ensures |Numbered(msgs, first)| == 0 <==> msgs == []
  {
    if msgs != [] {
      NumberedEmptyIff(msgs[..|msgs| - 1], first);
    }
  }

  /** Nil for a nil list or an all-nil list; non-nil iff at least one error is non-nil. */
  lemma ConcatenatedErrorsNilIff(errList: Option<seq<Option<string>>>)
    ensures ConcatenatedErrors(errList).None? <==> errList.None? || AllNil(errList.value)
  {
    if errList.Some? {
      MessagesEmptyIffAllNil(errList.value);
      NumberedEmptyIff(Messages(errList.value), 1);
    }
  }

  /** The messages around a non-nil error are the messages before it, its own, and those after it. */
  lemma {:induction false} MessagesSplit(errs: seq<Option<string>>, i: nat)
    requires i < |errs|
    ensures Messages(errs) == Messages(errs[..i]) + Messages([errs[i]]) + Messages(errs[i + 1..])
    decreases |errs|
  {
    if i == |errs| - 1 {
      assert errs[..|errs| - 1] == errs[..i];
      assert [errs[i]][..0] == [];
      assert errs[i + 1..] == [];
    } else {
      var p := errs[..|errs| - 1];
      MessagesSplit(p, i);
      assert p[..i] == errs[..i];
      assert p[i] == errs[i];
      var q := errs[i + 1..];
      assert q[..|q| - 1] == p[i + 1..];
      assert q[|q| - 1] == errs[|errs| - 1];
    }
  }

  /** Numbering one more message appends its entry, numbered after the others. */
  lemma NumberedSnoc(msgs: seq<string>, msg: string, first: nat)
    ensures Numbered(msgs + [msg], first) == Numbered(msgs, first) + ErrorEntry(first + |msgs|, msg)
  {
    assert (msgs + [msg])[..|msgs|] == msgs;
  }

  /** Numbering `a + b` from `first` numbers `b` from `first + |a|`. */
  lemma {:induction false} NumberedAppend(a: seq<string>, b: seq<string>, first: nat)
    ensures Numbered(a + b, first) == Numbered(a, first) + Numbered(b, first + |a|)
    decreases |b|
  {
    if b == [] {
      assert a + b == a;
    } else {
      var b', last := b[..|b| - 1], b[|b| - 1];
      assert a + b == (a + b') + [last];
      assert b == b' + [last];
      var e := ErrorEntry(first + |a| + |b'|, last);
      calc {
        Numbered(a + b, first);
        { NumberedSnoc(a + b', last, first); }
        Numbered(a + b', first) + e;
        { NumberedAppend(a, b', first); }
        (Numbered(a, first) + Numbered(b', first + |a|)) + e;
        { Text.AppendAssociative(Numbered(a, first), Numbered(b', first + |a|), e); }
        Numbered(a, first) + (Numbered(b', first + |a|) + e);
        { NumberedSnoc(b', last, first + |a|); }
        Numbered(a, first) + Numbered(b, first + |a|);
      }
    }
  }

  /**
   * A non-nil error at argument position `i` contributes the entry numbered one more
   * than the count of non-nil errors before it; nils consume no number.
   */
  lemma ConcatenatedErrorsNumbering(errs: seq<Option<string>>, i: nat)
    requires i < |errs| && errs[i].Some?
    ensures var n := |Messages(errs[..i])| + 1;
      ConcatenatedErrors(Some(errs)) == Some(
        Numbered(Messages(errs[..i]), 1) + ErrorEntry(n, errs[i].value) + Numbered(Messages(errs[i + 1..]), n + 1))
  {
    var before, after := Messages(errs[..i]), Messages(errs[i + 1..]);
    MessagesSplit(errs, i);
    assert Messages([errs[i]]) == [errs[i].value] by { assert [errs[i]][..0] == []; }
    NumberedAppend(before + [errs[i].value], after, 1);
    NumberedAppend(before, [errs[i].value], 1);
    assert [errs[i].value][..0] == [];
  }
}
