/** Path names on the wire: copied into fields of fixed size, and read back as C strings by a
    receiver that may read on behind the field. */
module Wire {
  import opened PathNames

  const PATH_FIELD: nat := 256

  /** A path copied into a zero-filled field. */
  function Encode(path: string): (field: string)
    requires |path| <= PATH_FIELD
    ensures |field| == PATH_FIELD
  {
    path + seq(PATH_FIELD - |path|, _ => '\0')
  }

  datatype Text = Overrun | Unterminated | Text(chars: string)

  /** The memory from some address on read as a C string. */
  function CString(memory: string): Text {
    if memory == "" then Unterminated
    else if memory[0] == '\0' then Text("")
    else
      match CString(memory[1..])
      case Text(rest) => Text([memory[0]] + rest)
      case failed => failed
  }

  /** What a receiver with `behind` in the memory behind the field reads of a path. A path longer
      than its field is copied past the end by the sender. */
  function Received(path: string, behind: string): Text {
    if |path| > PATH_FIELD then Overrun else CString(Encode(path) + behind)
  }

  lemma {:induction false} TextThenMore(path: string, more: string)
    requires '\0' !in path
    ensures CString(path + more) == match CString(more)
                                    case Text(rest) => Text(path + rest)
                                    case failed => failed
  {
    if path == "" {
      assert path + more == more;
    } else {
      assert (path + more)[1..] == path[1..] + more;
      TextThenMore(path[1..], more);
      if CString(more).Text? { assert [path[0]] + (path[1..] + CString(more).chars) == path + CString(more).chars; }
    }
  }

  lemma ReceivedAs(path: string, behind: string)
    requires '\0' !in path && |path| <= PATH_FIELD
    ensures Received(path, behind) ==
            if |path| < PATH_FIELD then Text(path)
            else match CString(behind)
                 case Text(rest) => Text(path + rest)
                 case failed => failed
  {
    var zeros := seq(PATH_FIELD - |path|, _ => '\0');
    assert Encode(path) + behind == path + (zeros + behind);
    TextThenMore(path, zeros + behind);
    if |path| == PATH_FIELD {
      assert zeros + behind == behind;
    } else {
      assert path + "" == path;
    }
  }

  lemma {:induction false} TextHasNoZero(memory: string)
    ensures CString(memory).Text? ==> '\0' !in CString(memory).chars
  {
    if memory != "" { TextHasNoZero(memory[1..]); }
  }

  /** A path arrives unchanged precisely when it holds no terminator and one follows it: its
      field has room for one, or the memory behind the field begins with one. */
  lemma PathRoundTripIff(path: string, behind: string)
    ensures Received(path, behind) == Text(path) <==>
            '\0' !in path && (|path| < PATH_FIELD || (|path| == PATH_FIELD && CString(behind) == Text("")))
  {
    if |path| <= PATH_FIELD {
      if '\0' in path {
        TextHasNoZero(Encode(path) + behind);
      } else {
        ReceivedAs(path, behind);
      }
    }
  }

  // ---- slashes at the end ----

  predicate AllSlashes(s: string) { forall i :: 0 <= i < |s| ==> s[i] == '/' }

  lemma {:induction false} ComponentsThenSlashes(path: string, slashes: string)
    requires AllSlashes(slashes)
    ensures Components(path + slashes) == Components(path)
    decreases |slashes|
  {
    if slashes == "" {
      assert path + slashes == path;
    } else {
      var front := slashes[..|slashes| - 1];
      assert (path + slashes)[..|path + slashes| - 1] == path + front;
      ComponentsThenSlashes(path, front);
    }
  }

  /** Number of characters that are no slashes. */
  function Letters(s: string): nat {
    if s == "" then 0 else Letters(s[..|s| - 1]) + (if s[|s| - 1] == '/' then 0 else 1)
  }

  function LettersIn(components: seq<string>): nat {
    if components == [] then 0 else LettersIn(components[..|components| - 1]) + |components[|components| - 1]|
  }

  lemma {:induction false} TailLetters(path: string)
    ensures Letters(path) == Letters(path[..|path| - TailLength(path)]) + TailLength(path)
  {
    if path == "" || path[|path| - 1] == '/' {
      assert path[..|path|] == path;
    } else {
      var front := path[..|path| - 1];
      TailLetters(front);
      assert path[..|path| - TailLength(path)] == front[..|front| - TailLength(front)];
    }
  }

  lemma {:induction false} LettersOfComponents(path: string)
    ensures LettersIn(Components(path)) == Letters(path)
    decreases |path|
  {
    if path != "" {
      if path[|path| - 1] == '/' {
        LettersOfComponents(path[..|path| - 1]);
      } else {
        var start := |path| - TailLength(path);
        TailLetters(path);
        LettersOfComponents(path[..start]);
        var components := Components(path);
        assert components[..|components| - 1] == Components(path[..start]);
      }
    }
  }

  lemma {:induction false} LettersAppend(a: string, b: string)
    ensures Letters(a + b) == Letters(a) + Letters(b)
    decreases |b|
  {
    if b == "" {
      assert a + b == a;
    } else {
      assert (a + b)[..|a + b| - 1] == a + b[..|b| - 1];
      LettersAppend(a, b[..|b| - 1]);
    }
  }

  lemma {:induction false} SlashesHaveNoLetters(s: string)
    ensures Letters(s) == 0 <==> AllSlashes(s)
  {
    if s != "" { SlashesHaveNoLetters(s[..|s| - 1]); }
  }

  /** Anything but slashes behind a path makes it a different path. */
  lemma MoreComponents(path: string, more: string)
    requires !AllSlashes(more)
    ensures Components(path + more) != Components(path)
  {
    LettersOfComponents(path);
    LettersOfComponents(path + more);
    LettersAppend(path, more);
    SlashesHaveNoLetters(more);
  }

  // ---- what arrives ----

  /** A path is read so that it leads to where it should: it is shorter than its field, or
      nothing is read behind the field, or only slashes are and `slashes` says that they do no harm. */
  predicate Intact(path: string, behind: string, slashes: bool) {
    || |path| < PATH_FIELD
    || (|path| == PATH_FIELD && CString(behind).Text?
        && (CString(behind).chars == "" || (slashes && AllSlashes(CString(behind).chars))))
  }

  lemma IntactText(path: string, behind: string, slashes: bool) returns (rest: string)
    requires '\0' !in path && Intact(path, behind, slashes)
    ensures Received(path, behind) == Text(path + rest) && AllSlashes(rest) && (slashes || rest == "")
  {
    ReceivedAs(path, behind);
    rest := if |path| < PATH_FIELD then "" else CString(behind).chars;
    assert path + "" == path;
  }

  lemma MisreadText(path: string, behind: string, slashes: bool) returns (rest: string)
    requires '\0' !in path && |path| <= PATH_FIELD && !Intact(path, behind, slashes)
    ensures |path| == PATH_FIELD
    ensures CString(behind).Text? <==> Received(path, behind).Text?
    ensures Received(path, behind).Text? ==>
              Received(path, behind) == Text(path + rest) && CString(behind) == Text(rest)
              && rest != "" && (slashes ==> !AllSlashes(rest))
  {
    ReceivedAs(path, behind);
    rest := if CString(behind).Text? then CString(behind).chars else "";
  }
}
