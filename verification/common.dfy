/**
 Identifiers and sequence helpers shared by the room directory and the
 connection registry of the socket server.
 */
module Common {

  /** The result of a lookup that may find nothing (the source's `null`/`undefined`). */
  datatype Option<+T> = None | Some(value: T)

  /** A user's stable, client-chosen identity. */
  type UserId = string
  /** The name of a room (also the name of its transport group). */
  type RoomId = string
  /** A room's language tag. */
  type Language = string
  /** The transport identity of one live connection (socket.io's `socket.id`). */
  type ConnId = string

  /** No element occurs twice. */
  predicate Distinct<T(==)>(s: seq<T>)
  {
    forall i, j :: 0 <= i < j < |s| ==> s[i] != s[j]
  }

  /** `s` with every occurrence of `x` filtered out, the rest kept in order. */
  function Without<T(==)>(s: seq<T>, x: T): (r: seq<T>)
    ensures x !in r && |r| <= |s|
    ensures x !in s ==> r == s
  {
    if |s| == 0 then []
    else if s[0] == x then Without(s[1..], x)
    else [s[0]] + Without(s[1..], x)
  }

  /** `Without` keeps exactly the other elements, and keeps them distinct. */
  lemma {:induction false} WithoutMembers<T>(s: seq<T>, x: T)
    ensures forall y :: y in Without(s, x) <==> y in s && y != x
    ensures Distinct(s) ==> Distinct(Without(s, x))
  {
    if |s| > 0 {
      WithoutMembers(s[1..], x);
      if Distinct(s) {
        forall i, j | 0 <= i < j < |s[1..]| ensures s[1..][i] != s[1..][j] {
          assert s[1..][i] == s[i + 1] && s[1..][j] == s[j + 1];
        }
        forall i | 0 <= i < |s[1..]| ensures s[1..][i] != s[0] {
          assert s[1..][i] == s[i + 1];
        }
        if s[0] != x {
          var w := Without(s[1..], x);
          assert Without(s, x) == [s[0]] + w;
          forall i, j | 0 <= i < j < |[s[0]] + w| ensures ([s[0]] + w)[i] != ([s[0]] + w)[j] {
            assert ([s[0]] + w)[j] == w[j - 1] && w[j - 1] in w;
            if i > 0 {
              assert ([s[0]] + w)[i] == w[i - 1];
            }
          }
        }
      }
    }
  }

  /** Removing an element from a sequence that holds it once cuts out exactly
      its position: the elements before and after it keep their order. */
  lemma {:induction false} WithoutAt<T>(s: seq<T>, i: nat)
    requires Distinct(s) && i < |s|
    ensures Without(s, s[i]) == s[..i] + s[i + 1..]
  {
    var t := s[1..];
    forall a, b | 0 <= a < b < |t| ensures t[a] != t[b] {
      assert t[a] == s[a + 1] && t[b] == s[b + 1];
    }
    if i == 0 {
      assert s[i] !in t by {
        forall k | 0 <= k < |t| ensures t[k] != s[0] {
          assert t[k] == s[k + 1];
        }
      }
      assert s[..0] + s[1..] == t;
    } else {
      assert s[0] != s[i];
      assert t[i - 1] == s[i];
      WithoutAt(t, i - 1);
      assert [s[0]] + (t[..i - 1] + t[i..]) == s[..i] + s[i + 1..];
    }
  }

  /** Removing an element that was just appended to a sequence not holding it
      gives the sequence back. */
  lemma {:induction false} WithoutAppended<T>(s: seq<T>, x: T)
    requires x !in s
    ensures Without(s + [x], x) == s
  {
    if |s| > 0 {
      assert (s + [x])[0] == s[0] && (s + [x])[1..] == s[1..] + [x];
      WithoutAppended(s[1..], x);
    } else {
      assert s + [x] == [x];
    }
  }
}
