/** Exceptions that carry their message in a buffer of 256 characters of their own. */
module BoundedMessage {

  const SIZE := 256

  /** The text of a C string: everything before the first NUL. */
  function CString(s: seq<char>): seq<char> {
    if s == [] || s[0] == '\0' then [] else [s[0]] + CString(s[1..])
  }

  predicate Terminated(s: seq<char>) {
    |CString(s)| < |s|
  }

  /** As much as fits before the terminator. */
  function Limited(s: seq<char>): seq<char> {
    if |s| <= SIZE - 1 then s else s[..SIZE - 1]
  }

  /** What the stream made of the appended value: text, or an exception. */
  datatype Formatted = Text(text: seq<char>) | Threw

  function Shown(message: Formatted): seq<char> {
    match message
    case Text(text) => CString(text)
    case Threw => CString("unexpected exception in StreamingException::" + "operator<<")
  }

  lemma {:induction false} CStringMeaning(s: seq<char>)
    ensures |CString(s)| <= |s| && CString(s) == s[..|CString(s)|]
    ensures forall k | 0 <= k < |CString(s)| :: s[k] != '\0'
    ensures |CString(s)| < |s| ==> s[|CString(s)|] == '\0'
  {
    if s != [] && s[0] != '\0' {
      CStringMeaning(s[1..]);
    }
  }

  /** A text without NUL followed by a NUL is that text, whatever comes after. */
  lemma {:induction false} CStringIs(s: seq<char>, n: nat)
    requires n < |s| && s[n] == '\0' && forall k | 0 <= k < n :: s[k] != '\0'
    ensures CString(s) == s[..n]
  {
    if n > 0 {
      CStringIs(s[1..], n - 1);
      assert s[..n] == [s[0]] + s[1..][..n - 1];
    }
  }

  lemma {:induction false} WithoutNul(s: seq<char>)
    requires forall k | 0 <= k < |s| :: s[k] != '\0'
    ensures CString(s) == s
  {
    if s != [] {
      WithoutNul(s[1..]);
    }
  }

  lemma UnexpectedHasNoNul()
    ensures forall k | 0 <= k < 44 :: "unexpected exception in StreamingException::"[k] != '\0'
    ensures forall k | 0 <= k < 10 :: "operator<<"[k] != '\0'
  {
  }

  /** What an append shows: a text up to its first NUL, and for a value whose `operator<<` throws a
      text of its own. */
  lemma ShownMeaning(message: Formatted)
    ensures message.Threw? ==> Shown(message) == "unexpected exception in StreamingException::" + "operator<<"
    ensures forall k | 0 <= k < |Shown(message)| :: Shown(message)[k] != '\0'
    ensures message.Text? ==>
              && Shown(message) <= message.text
              && (Shown(message) == message.text || message.text[|Shown(message)|] == '\0')
  {
    match message
    case Threw =>
      UnexpectedHasNoNul();
      WithoutNul("unexpected exception in StreamingException::" + "operator<<");
    case Text(text) => CStringMeaning(text);
  }

  /** The first 255 characters. */
  lemma LimitedMeaning(s: seq<char>)
    ensures |s| <= 255 ==> Limited(s) == s
    ensures |s| > 255 ==> Limited(s) == s[..255]
  {
  }

  /** What the buffer holds after text was copied behind its old contents and its last character
      was overwritten. */
  lemma AfterCopy(was: seq<char>, now: seq<char>, text: seq<char>)
    requires |was| == |now| == SIZE && Terminated(was) && forall k | 0 <= k < |text| :: text[k] != '\0'
    requires now[SIZE - 1] == '\0'
    requires forall k | 0 <= k < SIZE - 1 ::
               now[k] == (if k < |CString(was)| then was[k]
                          else if k - |CString(was)| < |text| then text[k - |CString(was)|] else '\0')
    ensures Terminated(now) && CString(now) == Limited(CString(was) + text)
  {
    hide CString;
    CStringMeaning(was);
    var size, whole := |CString(was)|, CString(was) + text;
    var n := |Limited(whole)|;
    assert forall k | 0 <= k < n :: now[k] == whole[k] && now[k] != '\0';
    CStringIs(now, n);
    assert now[..n] == Limited(whole);
  }

  class StreamingException {
    const message: array<char>

    ghost predicate Valid()
      reads this, message
    {
      message.Length == SIZE && Terminated(message[..])
    }

    /** What `what()` returns. */
    ghost function What(): seq<char>
      reads this, message
    {
      CString(message[..])
    }

    constructor ()
      ensures Valid() && fresh(message) && message.Length == 256 && What() == []
    {
      var buffer := new char[SIZE];
      buffer[0] := '\0';
      message := buffer;
    }

    constructor With(first: Formatted)
      ensures Valid() && fresh(message) && message.Length == 256 && What() == Limited(Shown(first))
      ensures What() == if |Shown(first)| <= 255 then Shown(first) else Shown(first)[..255]
      ensures first.Threw? ==> What() == "unexpected exception in StreamingException::" + "operator<<"
    {
      var buffer := new char[SIZE];
      buffer[0] := '\0';
      message := buffer;
      new;
      hide CString, Shown, Limited;
      CStringIs(message[..], 0);
      assert [] + Shown(first) == Shown(first);
      LimitedMeaning(Shown(first));
      ShownMeaning(first);
      Append(first);
    }

    method StrLen() returns (n: nat)
      requires Valid()
      ensures n == |What()| && n < SIZE
    {
      CStringMeaning(message[..]);
      n := 0;
      while message[n] != '\0'
        invariant n <= |What()|
        decreases |What()| - n
      {
        n := n + 1;
      }
    }

    /** `strncpy`: copies up to `n` characters and fills the rest with NUL. */
    method StrNCpy(at: nat, source: seq<char>, n: nat)
      requires message.Length == SIZE && at + n <= SIZE
      modifies message
      ensures forall k | at <= k < at + n :: message[k] == (if k - at < |source| then source[k - at] else '\0')
      ensures forall k | 0 <= k < SIZE && !(at <= k < at + n) :: message[k] == old(message[k])
    {
      for i := 0 to n
        invariant forall k | at <= k < at + i :: message[k] == (if k - at < |source| then source[k - at] else '\0')
        invariant forall k | 0 <= k < SIZE && !(at <= k < at + i) :: message[k] == old(message[k])
      {
        message[at + i] := if i < |source| then source[i] else '\0';
      }
    }

    /** `operator<<`: the message and the appended text, cut to 255 characters. */
    method Append(appended: Formatted)
      requires Valid()
      modifies message
      ensures Valid() && What() == Limited(old(What()) + Shown(appended))
      ensures var whole := old(What()) + Shown(appended);
              What() == if |whole| <= 255 then whole else whole[..255]
      ensures var whole := old(What()) + "unexpected exception in StreamingException::" + "operator<<";
              appended.Threw? ==> What() == if |whole| <= 255 then whole else whole[..255]
    {
      hide CString, Shown, Limited, Terminated;
      ghost var was := message[..];
      var size := StrLen();
      var text := Shown(appended);
      ShownMeaning(appended);
      StrNCpy(size, text, SIZE - size);
      message[SIZE - 1] := '\0';
      AfterCopy(was, message[..], text);
      LimitedMeaning(CString(was) + text);
      JoinedThree(CString(was), "unexpected exception in StreamingException::", "operator<<");
    }
  }

  lemma JoinedThree(a: seq<char>, b: seq<char>, c: seq<char>)
    ensures a + b + c == a + (b + c)
  {
  }

  // ---------------------------------------------------------------------------------------
  // Chains of appends

  function Concatenated(parts: seq<Formatted>): seq<char> {
    if parts == [] then [] else Concatenated(parts[..|parts| - 1]) + Shown(parts[|parts| - 1])
  }

  /** Cutting after every append is the same as cutting once. */
  lemma CutTwiceIsOnce(a: seq<char>, b: seq<char>)
    ensures Limited(Limited(a) + b) == Limited(a + b)
  {
    if |a| > SIZE - 1 {
      assert (a[..SIZE - 1] + b)[..SIZE - 1] == a[..SIZE - 1];
      assert (a + b)[..SIZE - 1] == a[..SIZE - 1];
    }
  }

  lemma ChainStep(start: seq<char>, parts: seq<Formatted>, i: nat)
    requires i < |parts|
    ensures Limited(Limited(start + Concatenated(parts[..i])) + Shown(parts[i]))
        == Limited(start + Concatenated(parts[..i + 1]))
  {
    hide Limited, Shown;
    assert parts[..i + 1][..i] == parts[..i];
    CutTwiceIsOnce(start + Concatenated(parts[..i]), Shown(parts[i]));
    assert start + Concatenated(parts[..i]) + Shown(parts[i]) == start + Concatenated(parts[..i + 1]);
  }

  lemma NothingAppended(start: seq<char>)
    ensures start + Concatenated([]) == start
  {
  }

  /** Any chain of appends leaves the first 255 characters of the whole concatenation. */
  method AppendAll(e: StreamingException, parts: seq<Formatted>)
    requires e.Valid()
    modifies e.message
    ensures e.Valid() && e.What() == Limited(old(e.What()) + Concatenated(parts))
    ensures var whole := old(e.What()) + Concatenated(parts);
            e.What() == if |whole| <= 255 then whole else whole[..255]
  {
    hide Shown, CString, Concatenated;
    ghost var start := e.What();
    NothingAppended(start);
    CStringMeaning(e.message[..]);
    assert parts[..0] == [];
    for i := 0 to |parts|
      invariant e.Valid() && e.What() == Limited(start + Concatenated(parts[..i]))
    {
      e.Append(parts[i]);
      ChainStep(start, parts, i);
    }
    assert parts[..|parts|] == parts;
    LimitedMeaning(start + Concatenated(parts));
  }

  /** An exception for a system error. It is the message it inherits, the error number, and
      whether extra text was added. */
  class Errno {
    const base: StreamingException
    const errno: int
    var hasExtra: bool

    ghost predicate Valid()
      reads this, base, base.message
    {
      base.Valid()
    }

    ghost function What(): seq<char>
      reads this, base, base.message
    {
      base.What()
    }

    /** `describe` is the text of `strerror` for this error number. */
    constructor (errno: int, describe: seq<char>)
      ensures Valid() && fresh(base) && fresh(base.message) && !hasExtra && this.errno == errno
      ensures What() == Limited(CString(describe))
    {
      hide CString, Limited;
      var b := new StreamingException();
      b.Append(Text(describe));
      assert [] + CString(describe) == CString(describe);
      base := b;
      this.errno := errno;
      hasExtra := false;
    }

    constructor With(errno: int, describe: seq<char>, first: Formatted)
      ensures Valid() && fresh(base) && fresh(base.message) && hasExtra && this.errno == errno
      ensures What() == Limited(CString(describe) + " when " + Shown(first))
    {
      hide CString, Limited;
      var b := new StreamingException();
      b.Append(Text(describe));
      assert [] + CString(describe) == CString(describe);
      base := b;
      this.errno := errno;
      hasExtra := false;
      new;
      Append(first);
      FirstExtra(CString(describe), Shown(first));
    }

    /** `operator<<`: the first append puts " when " before its text, by calling itself. */
    method Append(appended: Formatted)
      requires Valid()
      modifies this`hasExtra, base.message
      ensures Valid() && hasExtra
      ensures What() == Limited(old(What()) + (if old(hasExtra) then Shown(appended) else " when " + Shown(appended)))
      decreases !hasExtra
    {
      hide CString, Shown, Limited;
      ghost var before := What();
      if !hasExtra {
        hasExtra := true;
        WhenIsShown();
        Append(Text(" when "));
        FirstExtra(before, Shown(appended));
      }
      base.Append(appended);
    }

    /** Text added after construction: " when " exactly once, then the extras in order. */
    method AppendAll(parts: seq<Formatted>)
      requires Valid()
      modifies this`hasExtra, base.message
      ensures Valid() && (hasExtra <==> old(hasExtra) || parts != [])
      ensures var when := if old(hasExtra) || parts == [] then [] else " when ";
              What() == Limited(old(What()) + when + Concatenated(parts))
    {
      hide CString, Shown, Concatenated;
      ghost var start := What();
      CStringMeaning(base.message[..]);
      NothingAppended(start);
      assert start + [] == start && parts[..|parts|] == parts && parts[..0] == [];
      if parts == [] {
        return;
      }
      ghost var head := start + (if hasExtra then [] else " when ");
      NothingAppended(head);
      ChainStep(head, parts, 0);
      FirstExtraOfChain(start, Shown(parts[0]), hasExtra);
      Append(parts[0]);
      for i := 1 to |parts|
        invariant Valid() && hasExtra && What() == Limited(head + Concatenated(parts[..i]))
      {
        Append(parts[i]);
        ChainStep(head, parts, i);
      }
    }
  }

  /** Cutting after " when " changes nothing. */
  lemma FirstExtra(start: seq<char>, text: seq<char>)
    ensures Limited(Limited(start + " when ") + text) == Limited(start + (" when " + text))
    ensures Limited(Limited(start) + (" when " + text)) == Limited(start + " when " + text)
  {
    hide Limited;
    CutTwiceIsOnce(start + " when ", text);
    CutTwiceIsOnce(start, " when " + text);
    assert start + " when " + text == start + (" when " + text);
  }

  lemma FirstExtraOfChain(start: seq<char>, text: seq<char>, hasExtra: bool)
    ensures Limited(start + (if hasExtra then text else " when " + text))
            == Limited(Limited(start + (if hasExtra then [] else " when ")) + text)
  {
    hide Limited;
    CutTwiceIsOnce(start + (if hasExtra then [] else " when "), text);
    assert start + (if hasExtra then text else " when " + text) == start + (if hasExtra then [] else " when ") + text;
  }

  lemma WhenIsShown()
    ensures Shown(Text(" when ")) == " when "
  {
    var s := " when ";
    assert s[1..] == "when " && s[1..][1..] == "hen " && s[1..][1..][1..] == "en ";
    assert "en "[1..] == "n " && "n "[1..] == " " && " "[1..] == "";
    assert CString(" ") == " ";
    assert CString("n ") == "n ";
    assert CString("en ") == "en ";
    assert CString("hen ") == "hen ";
    assert CString("when ") == "when ";
  }
}
