/**
 * The carriage-return translation the early console applies: a raw UART
 * has no terminal line discipline, so every line feed is sent as CR LF.
 */
module LineDiscipline {

  /** s with every '\n' replaced by "\r\n". */
  function Expand(s: seq<char>): (t: seq<char>) {
    if s == [] then [] else (if s[0] == '\n' then "\r\n" else [s[0]]) + Expand(s[1..])
  }

  /** The number of line feeds in s. */
  function LineFeeds(s: seq<char>): (count: nat) {
    if s == [] then 0 else (if s[0] == '\n' then 1 else 0) + LineFeeds(s[1..])
  }

  /** The inverse translation: drop each '\r' that immediately precedes a '\n'. */
  function StripCR(t: seq<char>): (s: seq<char>) {
    if t == [] then []
    else if 2 <= |t| && t[0] == '\r' && t[1] == '\n' then StripCR(t[1..])
    else [t[0]] + StripCR(t[1..])
  }

  /** Translating a concatenation translates each part. */
  lemma {:induction false} ExpandAppend(s: seq<char>, t: seq<char>)
    ensures Expand(s + t) == Expand(s) + Expand(t)
  {
    if s == [] {
      assert s + t == t;
    } else {
      assert (s + t)[1..] == s[1..] + t;
      ExpandAppend(s[1..], t);
    }
  }

  /** One character more in: its translation more out. */
  lemma ExpandSnoc(s: seq<char>, c: char)
    ensures Expand(s + [c]) == Expand(s) + (if c == '\n' then "\r\n" else [c])
  {
    ExpandAppend(s, [c]);
    assert [c][1..] == [];
  }

  /** One extra character goes out per line feed. */
  lemma {:induction false} ExpandLength(s: seq<char>)
    ensures |Expand(s)| == |s| + LineFeeds(s)
  {
    if s != [] {
      ExpandLength(s[1..]);
    }
  }

  /** The translation never starts with a bare line feed. */
  lemma ExpandHead(s: seq<char>)
    ensures Expand(s) == [] || Expand(s)[0] != '\n'
  {
  }

  /** Stripping undoes the translation, so every input character is sent, in order. */
  lemma {:induction false} StripExpand(s: seq<char>)
    ensures StripCR(Expand(s)) == s
  {
    if s != [] {
      var rest := Expand(s[1..]);
      StripExpand(s[1..]);
      ExpandHead(s[1..]);
      if s[0] == '\n' {
        assert Expand(s) == ['\r'] + (['\n'] + rest);
        assert (['\r'] + (['\n'] + rest))[1..] == ['\n'] + rest;
        assert (['\n'] + rest)[1..] == rest;
      } else {
        assert Expand(s) == [s[0]] + rest;
        assert ([s[0]] + rest)[1..] == rest;
      }
    }
  }

  /** Every line feed that goes out has a carriage return immediately before it. */
  lemma {:induction false} CarriageReturnBeforeLineFeed(s: seq<char>, k: nat)
    requires k < |Expand(s)| && Expand(s)[k] == '\n'
    ensures 0 < k && Expand(s)[k - 1] == '\r'
  {
    var head := if s[0] == '\n' then "\r\n" else [s[0]];
    var rest := Expand(s[1..]);
    assert Expand(s) == head + rest;
    if k >= |head| {
      CarriageReturnBeforeLineFeed(s[1..], k - |head|);
    }
  }

  /** Text without line feeds goes out unchanged. */
  lemma {:induction false} ExpandWithoutLineFeeds(s: seq<char>)
    requires forall k :: 0 <= k < |s| ==> s[k] != '\n'
    ensures Expand(s) == s
  {
    if s != [] {
      ExpandWithoutLineFeeds(s[1..]);
    }
  }

  /** "ab\ncd" goes out as a, b, CR, LF, c, d. */
  lemma ExpandExample()
    ensures Expand("ab\ncd") == "ab\r\ncd"
  {
    assert "ab\ncd"[1..] == "b\ncd";
    assert "b\ncd"[1..] == "\ncd";
    assert "\ncd"[1..] == "cd";
    assert "cd"[1..] == "d";
  }
}
