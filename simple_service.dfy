/** Model of `simpleService` (SimpleService.go): Reflect and Reverse. */
module SimpleService {
  import opened Wrappers
  import opened Reflectsvc
  import Text

  /** `Reflect` answers with its input and no error. */
  function Reflect(json: string): (r: Reply)
    ensures r.value == json && r.err == None
  {
    Reply(json, None)
  }

  /** `Reverse`: the same rune loop as the string service's, with the same empty-string error. */
  method Reverse(s: string) returns (r: Reply)
    ensures s == "" ==> r == Reply("", Some(ErrEmpty))
    ensures s != "" ==> r.err == None && r.value == Text.Reversed(s)
    ensures |r.value| == |s|
    ensures forall k :: 0 <= k < |s| ==> r.value[k] == s[|s| - 1 - k]
  {
    if s == "" {
      return Reply("", Some(ErrEmpty));
    }
    var acc := "";
    var i := 0;
    while i < |s|
      invariant 0 <= i <= |s|
      invariant acc == Text.Reversed(s[..i])
    {
      assert s[..i + 1][..i] == s[..i];
      acc := [s[i]] + acc;
      i := i + 1;
    }
    assert s[..|s|] == s;
    Text.ReversedAt(s);
    r := Reply(acc, None);
  }
}
