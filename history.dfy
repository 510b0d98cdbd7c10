/**
 * The append-only history of one user's usernames, or of one user's nicknames
 * in one guild, and what the change detectors do to it on a healthy store.
 * The latest stored value is the last element of the history.
 */
module History {

  function Last(h: seq<string>): string
    requires h != []
  {
    h[|h| - 1]
  }

  /** The username history after one observation: a row is appended on a change. */
  function UsernameAfter(h: seq<string>, name: string): seq<string>
  {
    if h != [] && Last(h) == name then h else h + [name]
  }

  /**
   * The nickname history after one observation: like usernames, except that
   * an empty nickname is not stored as the first row.
   */
  function NicknameAfter(h: seq<string>, nick: string): seq<string>
  {
    if h == [] then (if nick == "" then [] else [nick])
    else if Last(h) == nick then h
    else h + [nick]
  }

  /** Observing a sequence of usernames one after the other. */
  function ObserveUsernames(h: seq<string>, obs: seq<string>): seq<string>
    decreases |obs|
  {
    if obs == [] then h else ObserveUsernames(UsernameAfter(h, obs[0]), obs[1..])
  }

  /** Observing a sequence of nicknames one after the other. */
  function ObserveNicknames(h: seq<string>, obs: seq<string>): seq<string>
    decreases |obs|
  {
    if obs == [] then h else ObserveNicknames(NicknameAfter(h, obs[0]), obs[1..])
  }

  predicate NoAdjacentDuplicates(s: seq<string>)
  {
    forall i :: 0 <= i < |s| - 1 ==> s[i] != s[i + 1]
  }

  predicate NoEmptyFirst(s: seq<string>)
  {
    s != [] ==> s[0] != ""
  }

  /** The distinct consecutive values of a sequence: each run collapsed to one element. */
  function Compress(s: seq<string>): seq<string>
    decreases |s|
  {
    if |s| <= 1 then s
    else if s[0] == s[1] then Compress(s[1..])
    else [s[0]] + Compress(s[1..])
  }

  /** A sequence without its leading empty strings. */
  function DropLeadingEmpty(s: seq<string>): seq<string>
    decreases |s|
  {
    if s != [] && s[0] == "" then DropLeadingEmpty(s[1..]) else s
  }

  /** One observation appends at most the observed value and never rewrites the past. */
  lemma UsernameAfterAppends(h: seq<string>, name: string)
    ensures UsernameAfter(h, name) == h || UsernameAfter(h, name) == h + [name]
    ensures UsernameAfter(h, name) != [] && Last(UsernameAfter(h, name)) == name
    ensures UsernameAfter(h, name) == h + [name] <==> h == [] || Last(h) != name
  {
  }

  lemma NicknameAfterAppends(h: seq<string>, nick: string)
    ensures NicknameAfter(h, nick) == h || NicknameAfter(h, nick) == h + [nick]
    ensures NicknameAfter(h, nick) == h + [nick] <==> (h == [] && nick != "") || (h != [] && Last(h) != nick)
  {
  }

  /** Observing the same username twice in a row is the same as observing it once. */
  lemma UsernameAfterIdempotent(h: seq<string>, name: string)
    ensures UsernameAfter(UsernameAfter(h, name), name) == UsernameAfter(h, name)
  {
  }

  lemma NicknameAfterIdempotent(h: seq<string>, nick: string)
    ensures NicknameAfter(NicknameAfter(h, nick), nick) == NicknameAfter(h, nick)
  {
  }

  lemma UsernameAfterKeepsNoAdjacentDuplicates(h: seq<string>, name: string)
    requires NoAdjacentDuplicates(h)
    ensures NoAdjacentDuplicates(UsernameAfter(h, name))
  {
  }

  lemma NicknameAfterKeepsInvariant(h: seq<string>, nick: string)
    requires NoAdjacentDuplicates(h) && NoEmptyFirst(h)
    ensures NoAdjacentDuplicates(NicknameAfter(h, nick)) && NoEmptyFirst(NicknameAfter(h, nick))
  {
  }

  /** Compress keeps the first element of a non-empty sequence. */
  lemma {:induction false} CompressHead(s: seq<string>)
    requires s != []
    ensures Compress(s) != [] && Compress(s)[0] == s[0]
    decreases |s|
  {
    if |s| > 1 && s[0] == s[1] {
      CompressHead(s[1..]);
    }
  }

  /** Compress leaves no two equal values next to each other. */
  lemma {:induction false} CompressNoAdjacentDuplicates(s: seq<string>)
    ensures NoAdjacentDuplicates(Compress(s))
    decreases |s|
  {
    if |s| > 1 {
      CompressNoAdjacentDuplicates(s[1..]);
      if s[0] != s[1] {
        CompressHead(s[1..]);
        var c := Compress(s[1..]);
        assert Compress(s) == [s[0]] + c;
        forall i | 0 <= i < |[s[0]] + c| - 1
          ensures ([s[0]] + c)[i] != ([s[0]] + c)[i + 1]
        {
          if i > 0 {
            assert ([s[0]] + c)[i] == c[i - 1];
          }
        }
      }
    }
  }

  /** Compress keeps the first element of a sequence whose first element is non-empty. */
  lemma {:induction false} CompressDropLeadingEmptyNoEmptyFirst(s: seq<string>)
    ensures NoEmptyFirst(Compress(DropLeadingEmpty(s)))
    decreases |s|
  {
    if s != [] && s[0] == "" {
      CompressDropLeadingEmptyNoEmptyFirst(s[1..]);
    } else if s != [] {
      CompressHead(s);
    }
  }

  /**
   * Observations after a known latest value x append the distinct consecutive
   * values of x followed by the observations, less the x already stored.
   */
  lemma {:induction false} ObserveUsernamesAfter(h: seq<string>, x: string, obs: seq<string>)
    ensures ObserveUsernames(h + [x], obs) == h + Compress([x] + obs)
    decreases |obs|
  {
    if obs != [] {
      var y := obs[0];
      assert ([x] + obs)[1..] == obs;
      if y == x {
        assert UsernameAfter(h + [x], y) == h + [x];
        ObserveUsernamesAfter(h, x, obs[1..]);
        assert [x] + obs[1..] == obs;
      } else {
        assert UsernameAfter(h + [x], y) == (h + [x]) + [y];
        ObserveUsernamesAfter(h + [x], y, obs[1..]);
        assert [y] + obs[1..] == obs;
        assert Compress([x] + obs) == [x] + Compress(obs);
      }
    } else {
      assert [x] + obs == [x];
    }
  }

  /** Observing a then b is observing a + b: observations compose in order. */
  lemma {:induction false} ObserveUsernamesConcat(h: seq<string>, a: seq<string>, b: seq<string>)
    ensures ObserveUsernames(h, a + b) == ObserveUsernames(ObserveUsernames(h, a), b)
    decreases |a|
  {
    if a != [] {
      assert (a + b)[0] == a[0];
      assert (a + b)[1..] == a[1..] + b;
      ObserveUsernamesConcat(UsernameAfter(h, a[0]), a[1..], b);
    } else {
      assert a + b == b;
    }
  }

  /**
   * Starting from no rows, the stored username history is exactly the
   * sequence of distinct consecutive usernames observed.
   */
  lemma {:induction false} ObserveUsernamesFromNothing(obs: seq<string>)
    ensures ObserveUsernames([], obs) == Compress(obs)
    ensures NoAdjacentDuplicates(ObserveUsernames([], obs))
  {
    if obs != [] {
      assert UsernameAfter([], obs[0]) == [] + [obs[0]];
      ObserveUsernamesAfter([], obs[0], obs[1..]);
      assert [obs[0]] + obs[1..] == obs;
    }
    CompressNoAdjacentDuplicates(obs);
  }

  /** Once a nickname row exists, nicknames are observed exactly like usernames. */
  lemma {:induction false} ObserveNicknamesLikeUsernames(h: seq<string>, obs: seq<string>)
    requires h != []
    ensures ObserveNicknames(h, obs) == ObserveUsernames(h, obs)
    decreases |obs|
  {
    if obs != [] {
      assert NicknameAfter(h, obs[0]) == UsernameAfter(h, obs[0]);
      ObserveNicknamesLikeUsernames(UsernameAfter(h, obs[0]), obs[1..]);
    }
  }

  /**
   * Starting from no rows, the stored nickname history is the sequence of
   * distinct consecutive nicknames observed after the first non-empty one;
   * in particular its first row is never empty.
   */
  lemma {:induction false} ObserveNicknamesFromNothing(obs: seq<string>)
    ensures ObserveNicknames([], obs) == Compress(DropLeadingEmpty(obs))
    ensures NoEmptyFirst(ObserveNicknames([], obs))
    ensures NoAdjacentDuplicates(ObserveNicknames([], obs))
    decreases |obs|
  {
    if obs != [] {
      if obs[0] == "" {
        ObserveNicknamesFromNothing(obs[1..]);
      } else {
        assert NicknameAfter([], obs[0]) == [obs[0]];
        ObserveNicknamesLikeUsernames([obs[0]], obs[1..]);
        ObserveUsernamesAfter([], obs[0], obs[1..]);
        assert [] + [obs[0]] == [obs[0]];
        assert [obs[0]] + obs[1..] == obs;
      }
    }
    CompressDropLeadingEmptyNoEmptyFirst(obs);
    CompressNoAdjacentDuplicates(DropLeadingEmpty(obs));
  }
}
