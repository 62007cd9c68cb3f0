/**
 * The five operations a deployment can serve (`BreezeOperation`), and how
 * the operation is read off the Lambda handler name: the text after the
 * last `.`, matched exactly against the operations' raw names.
 */
module Operations {
  import opened Results

  datatype BreezeOperation = Create | Read | Update | Delete | List

  /** The raw value of each case: its name, in lower-case ASCII letters, so free of dots. */
  function RawValue(op: BreezeOperation): (s: string)
    ensures s != [] && forall i :: 0 <= i < |s| ==> 'a' <= s[i] <= 'z'
  {
    match op
    case Create => "create"
    case Read => "read"
    case Update => "update"
    case Delete => "delete"
    case List => "list"
  }

  /** `BreezeOperation(rawValue:)`: the case whose name is exactly `raw`, if any. */
  function FromRawValue(raw: string): (r: Option<BreezeOperation>)
    ensures forall op :: r == Some(op) <==> RawValue(op) == raw
  {
    if raw == "create" then Some(Create)
    else if raw == "read" then Some(Read)
    else if raw == "update" then Some(Update)
    else if raw == "delete" then Some(Delete)
    else if raw == "list" then Some(List)
    else None
  }

  /** Raw values round-trip: so distinct operations have distinct names. */
  lemma RawValueRoundTrip(op: BreezeOperation)
    ensures FromRawValue(RawValue(op)) == Some(op)
  {
  }

  /** A finished piece is kept only when it is not empty. */
  function Flush(piece: string): seq<string> {
    if piece == [] then [] else [piece]
  }

  /**
   * Splitting the rest `s` of a text when `piece` has been read since the
   * last separator.
   */
  function SplitFrom(s: string, sep: char, piece: string): (r: seq<string>)
    requires sep !in piece
    ensures forall i :: 0 <= i < |r| ==> r[i] != [] && sep !in r[i]
    decreases |s|
  {
    if s == [] then Flush(piece)
    else if s[0] == sep then Flush(piece) + SplitFrom(s[1..], sep, [])
    else SplitFrom(s[1..], sep, piece + [s[0]])
  }

  /**
   * `split(separator:)` with its default of omitting empty pieces: the
   * maximal runs of `s` free of `sep`, in order.
   */
  function Split(s: string, sep: char): (r: seq<string>)
    ensures forall i :: 0 <= i < |r| ==> r[i] != [] && sep !in r[i]
  {
    SplitFrom(s, sep, [])
  }

  /** The pieces, run together. */
  function Concat(pieces: seq<string>): string {
    if pieces == [] then [] else pieces[0] + Concat(pieces[1..])
  }

  /** `s` without its `sep` characters. */
  function Without(s: string, sep: char): string {
    if s == [] then [] else (if s[0] == sep then [] else [s[0]]) + Without(s[1..], sep)
  }

  lemma {:induction false} ConcatAppend(a: seq<string>, b: seq<string>)
    ensures Concat(a + b) == Concat(a) + Concat(b)
    decreases |a|
  {
    if a == [] {
      assert a + b == b;
    } else {
      assert (a + b)[1..] == a[1..] + b;
      ConcatAppend(a[1..], b);
    }
  }

  /** Splitting loses only separators: the pieces run together are the text without them. */
  lemma {:induction false} SplitKeepsText(s: string, sep: char, piece: string)
    requires sep !in piece
    ensures Concat(SplitFrom(s, sep, piece)) == piece + Without(s, sep)
    decreases |s|
  {
    if s == [] {
    } else if s[0] == sep {
      SplitKeepsText(s[1..], sep, []);
      ConcatAppend(Flush(piece), SplitFrom(s[1..], sep, []));
    } else {
      SplitKeepsText(s[1..], sep, piece + [s[0]]);
      assert piece + [s[0]] + Without(s[1..], sep) == piece + Without(s, sep);
    }
  }

  /** A text free of separators continues the current piece to its end. */
  lemma {:induction false} SplitWordFrom(w: string, sep: char, piece: string)
    requires sep !in piece && sep !in w
    ensures SplitFrom(w, sep, piece) == Flush(piece + w)
    decreases |w|
  {
    if w == [] {
      assert piece + w == piece;
    } else {
      SplitWordFrom(w[1..], sep, piece + [w[0]]);
      assert piece + [w[0]] + w[1..] == piece + w;
    }
  }

  /** A separator cuts the text in two, and the pieces of the halves are the pieces of the whole. */
  lemma {:induction false} SplitAtSeparatorFrom(a: string, sep: char, b: string, piece: string)
    requires sep !in piece
    ensures SplitFrom(a + [sep] + b, sep, piece) == SplitFrom(a, sep, piece) + SplitFrom(b, sep, [])
    decreases |a|
  {
    var s := a + [sep] + b;
    if a == [] {
      assert s[1..] == b;
    } else {
      assert s[0] == a[0] && s[1..] == a[1..] + [sep] + b;
      if a[0] == sep {
        SplitAtSeparatorFrom(a[1..], sep, b, []);
      } else {
        SplitAtSeparatorFrom(a[1..], sep, b, piece + [a[0]]);
      }
    }
  }

  lemma SplitAtSeparator(a: string, sep: char, b: string)
    ensures Split(a + [sep] + b, sep) == Split(a, sep) + Split(b, sep)
  {
    SplitAtSeparatorFrom(a, sep, b, []);
  }

  /** A non-empty text without separators is its only piece. */
  lemma SplitWord(w: string, sep: char)
    requires w != [] && sep !in w
    ensures Split(w, sep) == [w]
  {
    SplitWordFrom(w, sep, []);
    assert [] + w == w;
  }

  /** A text of separators only has no pieces. */
  lemma {:induction false} SplitOnlySeparators(s: string, sep: char)
    requires forall i :: 0 <= i < |s| ==> s[i] == sep
    ensures Split(s, sep) == []
    decreases |s|
  {
    if s != [] {
      SplitOnlySeparators(s[1..], sep);
    }
  }

  /**
   * `w` is the last piece of `h`: it follows the start of `h` or a
   * separator, and only separators follow it.
   */
  ghost predicate LastPiece(h: string, sep: char, w: string) {
    exists i, j :: 0 <= i <= j <= |h| && h[i..j] == w && (i == 0 || h[i - 1] == sep) &&
      forall k :: j <= k < |h| ==> h[k] == sep
  }

  /** A text with no pieces is made of separators only. */
  lemma {:induction false} SplitEmptyOnlySeparators(s: string, sep: char, piece: string)
    requires sep !in piece
    ensures SplitFrom(s, sep, piece) == [] ==> piece == [] && forall k :: 0 <= k < |s| ==> s[k] == sep
    decreases |s|
  {
    if s != [] {
      if s[0] == sep {
        SplitEmptyOnlySeparators(s[1..], sep, []);
        if SplitFrom(s, sep, piece) == [] {
          assert forall k :: 1 <= k < |s| ==> s[k] == s[1..][k - 1];
        }
      } else {
        SplitEmptyOnlySeparators(s[1..], sep, piece + [s[0]]);
      }
    }
  }

  /** A piece followed by separators only is the last piece. */
  lemma LastPieceBeforeSeparators(piece: string, s: string, sep: char)
    requires forall k :: 0 <= k < |s| ==> s[k] == sep
    ensures LastPiece(piece + s, sep, piece)
  {
    var h := piece + s;
    assert h[0..|piece|] == piece;
    forall k | |piece| <= k < |h|
      ensures h[k] == sep
    {
      assert h[k] == s[k - |piece|];
    }
  }

  /** The last piece of what follows a separator is the last piece of the whole. */
  lemma LastPieceAfterSeparator(piece: string, s: string, sep: char, w: string)
    requires s != [] && s[0] == sep
    requires LastPiece(s[1..], sep, w)
    ensures LastPiece(piece + s, sep, w)
  {
    var h := piece + s;
    var off := |piece| + 1;
    var t := s[1..];
    var i, j :| 0 <= i <= j <= |t| && t[i..j] == w && (i == 0 || t[i - 1] == sep) &&
      forall k :: j <= k < |t| ==> t[k] == sep;
    assert h[off..] == t;
    assert h[i + off..j + off] == t[i..j];
    assert h[i + off - 1] == sep by {
      if i == 0 {
        assert h[off - 1] == s[0];
      } else {
        assert h[i + off - 1] == t[i - 1];
      }
    }
    forall k | j + off <= k < |h|
      ensures h[k] == sep
    {
      assert h[k] == t[k - off];
    }
  }

  /** The last piece of a split is the last piece of the text (the current piece included). */
  lemma {:induction false} SplitFromLastPiece(s: string, sep: char, piece: string)
    requires sep !in piece
    ensures var r := SplitFrom(s, sep, piece);
      r != [] ==> LastPiece(piece + s, sep, r[|r| - 1])
    decreases |s|
  {
    var r := SplitFrom(s, sep, piece);
    if s == [] {
      if r != [] {
        LastPieceBeforeSeparators(piece, s, sep);
      }
    } else if s[0] == sep {
      var rest := SplitFrom(s[1..], sep, []);
      if rest != [] {
        SplitFromLastPiece(s[1..], sep, []);
        assert [] + s[1..] == s[1..];
        LastPieceAfterSeparator(piece, s, sep, rest[|rest| - 1]);
      } else if r != [] {
        SplitEmptyOnlySeparators(s[1..], sep, []);
        assert forall k :: 1 <= k < |s| ==> s[k] == s[1..][k - 1];
        LastPieceBeforeSeparators(piece, s, sep);
      }
    } else {
      SplitFromLastPiece(s[1..], sep, piece + [s[0]]);
      assert piece + [s[0]] + s[1..] == piece + s;
    }
  }

  lemma SplitLastPiece(s: string, sep: char)
    ensures var r := Split(s, sep);
      r != [] ==> LastPiece(s, sep, r[|r| - 1])
  {
    SplitFromLastPiece(s, sep, []);
    assert [] + s == s;
  }

  /** A piece followed by separators only is the one piece of the text. */
  lemma SplitTrailingSeparators(w: string, sep: char, tail: string)
    requires w != [] && sep !in w
    requires forall k :: 0 <= k < |tail| ==> tail[k] == sep
    ensures Split(w + tail, sep) == [w]
  {
    SplitWord(w, sep);
    if tail == [] {
      assert w + tail == w;
    } else {
      assert w + tail == w + [sep] + tail[1..];
      SplitAtSeparator(w, sep, tail[1..]);
      SplitOnlySeparators(tail[1..], sep);
    }
  }

  /**
   * `BreezeOperation(handler:)`: the last non-empty piece of the handler
   * name between dots, matched exactly; `nil` when there is no piece or it
   * names no operation.
   */
  function FromHandler(handler: string): (r: Option<BreezeOperation>)
    ensures r.Some? ==> LastPiece(handler, '.', RawValue(r.value))
  {
    var pieces := Split(handler, '.');
    if pieces == [] then None
    else
      SplitLastPiece(handler, '.');
      FromRawValue(pieces[|pieces| - 1])
  }

  /** An operation's name standing at `handler[i..j]`, followed by dots only, selects it. */
  lemma HandlerFromLastPiece(handler: string, op: BreezeOperation, i: int, j: int)
    requires 0 <= i <= j <= |handler| && handler[i..j] == RawValue(op)
    requires i == 0 || handler[i - 1] == '.'
    requires forall k :: j <= k < |handler| ==> handler[k] == '.'
    ensures FromHandler(handler) == Some(op)
  {
    var raw := RawValue(op);
    var tail := handler[j..];
    assert forall n :: 0 <= n < |raw| ==> raw[n] != '.';
    assert '.' !in raw;
    SplitTrailingSeparators(raw, '.', tail);
    if i == 0 {
      assert handler == raw + tail;
    } else {
      assert handler == handler[..i - 1] + ['.'] + (raw + tail);
      SplitAtSeparator(handler[..i - 1], '.', raw + tail);
    }
  }

  /** A handler selects exactly the operation whose raw value is its last piece. */
  lemma FromHandlerIff(handler: string, op: BreezeOperation)
    ensures FromHandler(handler) == Some(op) <==> LastPiece(handler, '.', RawValue(op))
  {
    if LastPiece(handler, '.', RawValue(op)) {
      var i, j :| 0 <= i <= j <= |handler| && handler[i..j] == RawValue(op) && (i == 0 || handler[i - 1] == '.') &&
        forall k :: j <= k < |handler| ==> handler[k] == '.';
      HandlerFromLastPiece(handler, op, i, j);
    }
  }

  /** The bare operation name is a handler for that operation. */
  lemma HandlerIsRawValue(op: BreezeOperation)
    ensures FromHandler(RawValue(op)) == Some(op)
  {
    SplitWord(RawValue(op), '.');
  }

  /** Whatever comes before the last dot, the name after it decides the operation. */
  lemma HandlerEndsWithRawValue(prefix: string, op: BreezeOperation)
    ensures FromHandler(prefix + "." + RawValue(op)) == Some(op)
  {
    SplitAtSeparator(prefix, '.', RawValue(op));
    SplitWord(RawValue(op), '.');
  }

  /** Trailing dots are ignored: the last non-empty piece still decides. */
  lemma HandlerTrailingDot(handler: string)
    ensures FromHandler(handler + ".") == FromHandler(handler)
  {
    SplitAtSeparator(handler, '.', []);
    assert handler + "." + [] == handler + ".";
  }

  /** A handler name of dots only, the empty one included, names no operation. */
  lemma HandlerWithoutPieces(handler: string)
    requires forall i :: 0 <= i < |handler| ==> handler[i] == '.'
    ensures FromHandler(handler) == None
  {
    SplitOnlySeparators(handler, '.');
  }

  /** A last piece that is not exactly an operation's name names no operation, whatever precedes it. */
  lemma HandlerUnknownSuffix(prefix: string, last: string)
    requires last != [] && '.' !in last
    requires forall op :: RawValue(op) != last
    ensures FromHandler(prefix + "." + last) == None
    ensures FromHandler(last) == None
  {
    SplitAtSeparator(prefix, '.', last);
    SplitWord(last, '.');
  }

  /** The handler names a deployment uses, with and without a module path. */
  lemma HandlerExamples(op: BreezeOperation)
    ensures FromHandler("build/Products." + RawValue(op)) == Some(op)
    ensures FromHandler(RawValue(op)) == Some(op)
  {
    assert "build/Products." + RawValue(op) == "build/Products" + "." + RawValue(op);
    HandlerEndsWithRawValue("build/Products", op);
    HandlerIsRawValue(op);
  }

  /** Names are case-sensitive: a capitalised operation name is no handler. */
  lemma HandlerIsCaseSensitive()
    ensures FromHandler("build/Products.Create") == None
  {
    assert "build/Products.Create" == "build/Products" + "." + "Create";
    HandlerUnknownSuffix("build/Products", "Create");
  }
}
