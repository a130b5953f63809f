// stripDashes of the session authenticator: the Mojang profile id with every
// '-' removed.
module Dashes {

  function StripDashes(s: string): (r: string)
    ensures |r| <= |s|
  {
    if s == [] then []
    else (if s[0] == '-' then [] else [s[0]]) + StripDashes(s[1..])
  }

  /** Stripping distributes over concatenation. */
  lemma {:induction false} StripAppend(s: string, t: string)
    ensures StripDashes(s + t) == StripDashes(s) + StripDashes(t)
  {
    if s != [] {
      assert (s + t)[0] == s[0] && (s + t)[1..] == s[1..] + t;
      StripAppend(s[1..], t);
    } else {
      assert s + t == t;
    }
  }

  /** One turn of the loop: a character is kept at the end of the result
      unless it is '-'. */
  lemma AppendChar(s: string, c: char)
    ensures StripDashes(s + [c]) == StripDashes(s) + (if c == '-' then [] else [c])
  {
    StripAppend(s, [c]);
    assert [c][1..] == [];
  }

  /** stripDashes: the loop over the characters, appending every one that is
      not '-'. */
  method Strip(uuid: string) returns (result: string)
    ensures result == StripDashes(uuid)
  {
    result := "";
    for i := 0 to |uuid|
      invariant result == StripDashes(uuid[..i])
    {
      AppendChar(uuid[..i], uuid[i]);
      assert uuid[..i + 1] == uuid[..i] + [uuid[i]];
      if uuid[i] != '-' {
        result := result + [uuid[i]];
      }
    }
    assert uuid[..|uuid|] == uuid;
  }

  /** The output holds no dash. */
  lemma {:induction false} NoDashes(s: string)
    ensures forall i :: 0 <= i < |StripDashes(s)| ==> StripDashes(s)[i] != '-'
  {
    if s != [] {
      NoDashes(s[1..]);
    }
  }

  /** Every non-dash character is kept, as many times as it occurs, and no other
      character is added. */
  lemma {:induction false} KeepsOthers(s: string)
    ensures multiset(StripDashes(s)) == multiset(s)['-' := 0]
  {
    if s != [] {
      var t := s[1..];
      KeepsOthers(t);
      assert s == [s[0]] + t;
      var head := if s[0] == '-' then [] else [s[0]];
      assert StripDashes(s) == head + StripDashes(t);
      ClearSum(multiset{s[0]}, multiset(t));
      assert multiset{s[0]}['-' := 0] == multiset(head);
    }
  }

  /** Clearing the dashes of a sum clears them in each part. */
  lemma ClearSum(a: multiset<char>, b: multiset<char>)
    ensures (a + b)['-' := 0] == a['-' := 0] + b['-' := 0]
  {
  }

  /** Input without a dash comes back unchanged. */
  lemma {:induction false} NoDashIdentity(s: string)
    requires forall i :: 0 <= i < |s| ==> s[i] != '-'
    ensures StripDashes(s) == s
  {
    if s != [] {
      NoDashIdentity(s[1..]);
    }
  }

  lemma Idempotent(s: string)
    ensures StripDashes(StripDashes(s)) == StripDashes(s)
  {
    NoDashes(s);
    NoDashIdentity(StripDashes(s));
  }
}
