/** `escape_markdown_v2` of app/bot.py: the escaping the Telegram Bot API's
    MarkdownV2 parse mode asks for, which puts a backslash in front of every
    reserved character. */
module Bot {

  /** The nineteen characters of the regular expression's character class:
      the eighteen MarkdownV2 reserves, and the backslash itself. */
  const SPECIAL_CHARS: string := "_*[]()~`>#+-=|{}.!\\"

  /** Membership in the character class, by code point: the nineteen
      characters fall in eight runs of consecutive codes. */
  predicate IsSpecial(c: char) {
    c == '!' || c == '#' || '(' <= c <= '+' || '-' <= c <= '.' || '=' <= c <= '>' ||
    '[' <= c <= ']' || '_' <= c <= '`' || '{' <= c <= '~'
  }

  /** The runs above hold exactly the characters of the class. */
  lemma IsSpecialIff(c: char)
    ensures IsSpecial(c) <==> c in SPECIAL_CHARS
  {
  }

  /** What `re.sub` puts in place of one character. */
  function EscapeChar(c: char): string {
    if IsSpecial(c) then ['\\', c] else [c]
  }

  /** Number of reserved characters in `s`. */
  function CountSpecial(s: string): nat
  {
    if s == [] then 0 else (if IsSpecial(s[0]) then 1 else 0) + CountSpecial(s[1..])
  }

  /** `escape_markdown_v2(text)`: one backslash more per reserved character. */
  function Escape(s: string): (r: string)
    ensures |r| == |s| + CountSpecial(s)
  {
    if s == [] then [] else EscapeChar(s[0]) + Escape(s[1..])
  }

  /** Drops every backslash that stands before a reserved character. */
  function Unescape(r: string): string
    decreases |r|
  {
    if r == [] then []
    else if |r| >= 2 && r[0] == '\\' && IsSpecial(r[1]) then [r[1]] + Unescape(r[2..])
    else [r[0]] + Unescape(r[1..])
  }

  /** The shape of every escaped text: each reserved character (the backslash
      among them) comes as a pair, a backslash and then the character. */
  predicate WellEscaped(r: string)
    decreases |r|
  {
    if r == [] then true
    else if r[0] == '\\' then |r| >= 2 && IsSpecial(r[1]) && WellEscaped(r[2..])
    else !IsSpecial(r[0]) && WellEscaped(r[1..])
  }

  /** The same text with its reserved characters removed. */
  function Plain(s: string): string
  {
    if s == [] then [] else (if IsSpecial(s[0]) then [] else [s[0]]) + Plain(s[1..])
  }

  // ---------------------------------------------------------------------------

  /** Escaping distributes over concatenation: the pattern matches single
      characters, so no match can span the seam. */
  lemma {:induction false} EscapeAppend(a: string, b: string)
    ensures Escape(a + b) == Escape(a) + Escape(b)
    decreases |a|
  {
    if a == [] {
      assert a + b == b;
    } else {
      assert (a + b)[0] == a[0];
      assert (a + b)[1..] == a[1..] + b;
      EscapeAppend(a[1..], b);
    }
  }

  lemma {:induction false} CountSpecialAppend(a: string, b: string)
    ensures CountSpecial(a + b) == CountSpecial(a) + CountSpecial(b)
    decreases |a|
  {
    if a == [] {
      assert a + b == b;
    } else {
      assert (a + b)[1..] == a[1..] + b;
      CountSpecialAppend(a[1..], b);
    }
  }

  /** Position by position: character `i` of the input lands at index `i`
      plus the number of reserved characters before it, shifted by one when
      it is itself reserved, and then the backslash stands just in front of it. */
  lemma EscapeAt(s: string, i: nat)
    requires i < |s|
    ensures var j := i + CountSpecial(s[..i]);
      if IsSpecial(s[i]) then
        j + 1 < |Escape(s)| && Escape(s)[j] == '\\' && Escape(s)[j + 1] == s[i]
      else
        j < |Escape(s)| && Escape(s)[j] == s[i]
  {
    var pre, post := s[..i], s[i + 1..];
    assert s == pre + [s[i]] + post;
    EscapeAppend(pre + [s[i]], post);
    EscapeAppend(pre, [s[i]]);
    assert Escape([s[i]]) == EscapeChar(s[i]);
    var r := Escape(pre) + EscapeChar(s[i]) + Escape(post);
    assert Escape(s) == r;
    assert |Escape(pre)| == i + CountSpecial(pre);
    assert r[|Escape(pre)|] == EscapeChar(s[i])[0];
    if IsSpecial(s[i]) {
      assert r[|Escape(pre)| + 1] == EscapeChar(s[i])[1];
    }
  }

  /** Removing the inserted backslashes gives the input back. */
  lemma {:induction false} UnescapeEscape(s: string)
    ensures Unescape(Escape(s)) == s
    decreases |s|
  {
    if s != [] {
      var e := Escape(s[1..]);
      UnescapeEscape(s[1..]);
      if IsSpecial(s[0]) {
        assert Escape(s) == ['\\', s[0]] + e;
        assert (['\\', s[0]] + e)[2..] == e;
      } else {
        assert Escape(s) == [s[0]] + e;
        assert ([s[0]] + e)[1..] == e;
      }
    }
  }

  /** Every escaped text has the escaped shape. */
  lemma {:induction false} EscapeWellEscaped(s: string)
    ensures WellEscaped(Escape(s))
    decreases |s|
  {
    if s != [] {
      var e := Escape(s[1..]);
      EscapeWellEscaped(s[1..]);
      if IsSpecial(s[0]) {
        assert (['\\', s[0]] + e)[2..] == e;
      } else {
        assert ([s[0]] + e)[1..] == e;
      }
    }
  }

  /** Conversely, every text of the escaped shape is the escape of some text,
      namely of its unescaping: Escape is a bijection onto that shape. */
  lemma {:induction false} EscapeUnescape(r: string)
    requires WellEscaped(r)
    ensures Escape(Unescape(r)) == r
    decreases |r|
  {
    if r != [] {
      if r[0] == '\\' {
        EscapeUnescape(r[2..]);
        var u := [r[1]] + Unescape(r[2..]);
        assert u[0] == r[1] && u[1..] == Unescape(r[2..]);
        assert r == ['\\', r[1]] + r[2..];
      } else {
        EscapeUnescape(r[1..]);
        var u := [r[0]] + Unescape(r[1..]);
        assert u[0] == r[0] && u[1..] == Unescape(r[1..]);
        assert r == [r[0]] + r[1..];
      }
    }
  }

  /** Characters outside the reserved set pass through unchanged and in order. */
  lemma {:induction false} EscapeKeepsPlain(s: string)
    ensures Plain(Escape(s)) == Plain(s)
    decreases |s|
  {
    if s != [] {
      var e := Escape(s[1..]);
      EscapeKeepsPlain(s[1..]);
      PlainAppend(EscapeChar(s[0]), e);
      if IsSpecial(s[0]) {
        assert Plain(['\\', s[0]]) == [] by {
          assert ['\\', s[0]][1..] == [s[0]];
        }
      } else {
        assert Plain([s[0]]) == [s[0]];
      }
    }
  }

  lemma {:induction false} PlainAppend(a: string, b: string)
    ensures Plain(a + b) == Plain(a) + Plain(b)
    decreases |a|
  {
    if a == [] {
      assert a + b == b;
    } else {
      assert (a + b)[1..] == a[1..] + b;
      PlainAppend(a[1..], b);
    }
  }

  /** A text is returned unchanged exactly when it holds no reserved character. */
  lemma {:induction false} EscapeIdentity(s: string)
    ensures Escape(s) == s <==> CountSpecial(s) == 0
    decreases |s|
  {
    if s != [] && CountSpecial(s) == 0 {
      EscapeIdentity(s[1..]);
      assert s == [s[0]] + s[1..];
    }
  }

  /** The two characters the source singles out in its comment: a backslash
      becomes two backslashes and a period becomes `\.`. */
  lemma EscapeBackslashAndPeriod()
    ensures Escape("\\") == "\\\\"
    ensures Escape(".") == "\\."
    ensures Escape("a.b") == "a\\.b"
  {
    assert "a.b"[1..] == ".b" && ".b"[1..] == "b";
  }
}
