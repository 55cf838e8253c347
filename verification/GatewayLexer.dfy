// The gateway baseline's own copy of the comment stripper.
module GatewayLexer {
  import opened GoLexer

  /** A second implementation of the scanner, without the blanking mode: it computes the same view. */
  method StripGoComments(text: string) returns (out: string)
    ensures out == View(text, false)
  {
    out := "";
    var i, state := 0, Code;
    while i < |text|
      invariant 0 <= i <= |text| && Progress(text, i, state, false, out)
    {
      ghost var t, before := TurnAt(text, i, state, false), (out, i);
      OneTurn(text, i, state, false, out);
      var c := text[i];
      var n := if i + 1 < |text| then text[i + 1] else '\0';
      match state {
        case InLine =>
          if c == '\n' {
            out := out + [c];
            state := Code;
          } else {
            out := out + " ";
          }
        case InBlock =>
          if c == '*' && n == '/' {
            out := out + "  ";
            i := i + 1;
            state := Code;
          } else {
            out := out + [if c == '\n' then '\n' else ' '];
          }
        case InQuote(quote) =>
          if c == '\\' && i + 1 < |text| {
            assert t.written == [c, text[i + 1]];
            out := out + [c, text[i + 1]];
            i := i + 1;
          } else {
            assert t.written == [c];
            out := out + [c];
            if c == quote {
              state := Code;
            }
          }
        case InRaw =>
          assert t.written == [c];
          out := out + [c];
          if c == '`' {
            state := Code;
          }
        case Code =>
          if c == '/' && n == '/' {
            out := out + "  ";
            i := i + 1;
            state := InLine;
          } else if c == '/' && n == '*' {
            out := out + "  ";
            i := i + 1;
            state := InBlock;
          } else {
            out := out + [c];
            if c == '"' {
              state := InQuote('"');
            } else if c == '\'' {
              state := InQuote('\'');
            } else if c == '`' {
              state := InRaw;
            }
          }
      }
      i := i + 1;
      assert out == before.0 + t.written && i == before.1 + t.read && state == t.next;
    }
    MachineIsView(text, false);
  }
}
