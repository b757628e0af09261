/** Model of `stringService` (StringService.go): Reflect, Reverse, Uppercase and Count. */
module StringService {
  import opened Wrappers
  import opened Reflectsvc
  import Text

  /** `Reflect` answers with its input and no error (the log line is left out). */
  function Reflect(req: string): (r: Reply)
    ensures r.value == req && r.err == None
  {
    Reply(req, None)
  }

  /** `Reverse`: the empty string is an error; otherwise each rune is prepended to the accumulator. */
  method Reverse(s: string) returns (r: Reply)
    ensures s == "" ==> r == Reply("", Some(ErrEmpty))
    ensures s != "" ==> r.err == None && r.value == Text.Reversed(s)
    ensures |r.value| == |s|
    ensures forall k :: 0 <= k < |s| ==> r.value[k] == s[|s| - 1 - k]
  {
    if s == "" {
      return Reply("", Some(ErrEmpty));
    }
    var acc := "";
    for i := 0 to |s|
      invariant acc == Text.Reversed(s[..i])
    {
      assert s[..i + 1][..i] == s[..i];
      acc := [s[i]] + acc;
    }
    assert s[..|s|] == s;
    Text.ReversedAt(s);
    r := Reply(acc, None);
  }

  /** `Uppercase`: the empty string is an error; any other string is upper-cased without error. */
  function Uppercase(s: string): (r: Reply)
    ensures r.err == Some(ErrEmpty) <==> s == ""
    ensures r.err == None <==> s != ""
    ensures |r.value| == |s|
    ensures forall i :: 0 <= i < |s| ==> !('a' <= r.value[i] <= 'z')
    ensures forall i :: 0 <= i < |s| && !('a' <= s[i] <= 'z') ==> r.value[i] == s[i]
    ensures forall i :: 0 <= i < |s| && 'a' <= s[i] <= 'z' ==> r.value[i] as int == s[i] as int - 32
    ensures s != "" ==> r.value == Text.Upper(s)
  {
    if s == "" then Reply("", Some(ErrEmpty)) else Reply(Text.Upper(s), None)
  }

  /** Upper-casing what `Uppercase` produced changes nothing more. */
  lemma UppercaseIdempotent(s: string)
    requires s != ""
    ensures Uppercase(Uppercase(s).value) == Uppercase(s)
  {
  }

  /**
   * `Count` is `len(s)`: the byte length of the UTF-8 encoding, not the rune count.
   * It is never below the rune count, at most four bytes per rune, and equal to the
   * rune count exactly when every rune is ASCII.
   */
  function Count(s: string): (n: nat)
    ensures |s| <= n <= 4 * |s|
    ensures n == |s| <==> Text.IsAscii(s)
  {
    Text.Utf8LengthBounds(s);
    Text.Utf8Length(s)
  }
}
