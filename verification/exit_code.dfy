/** Exit codes of finished commands (src/command/exit_code.rs): turning a
    process status into a code, and the three-column text the progress
    display shows for it. Terminal colours are reduced to the style the
    text is drawn in. */
module ExitCodes {
  import opened Common

  /** What the operating system reports for a finished process: an exit
      code, or (on Unix) the signal that ended it. */
  datatype ExitStatus = ExitStatus(code: Option<int>, signal: Option<int>)

  /** `get_exit_code` on Unix: the code if there is one, otherwise
      128 plus the terminating signal, as shells report it. */
  function GetExitCodeUnix(status: ExitStatus): (r: Option<int>)
    ensures status.code.Some? ==> r == status.code
    ensures status.code.None? && status.signal.Some? ==> r == Some(status.signal.value + 128)
    ensures r.None? <==> status.code.None? && status.signal.None?
  {
    match status.code
    case Some(c) => Some(c)
    case None =>
      match status.signal
      case Some(s) => Some(s + 128)
      case None => None
  }

  /** `get_exit_code` elsewhere: only the code; a signal is not seen. */
  function GetExitCodeOther(status: ExitStatus): (r: Option<int>)
    ensures r == status.code
  {
    status.code
  }

  /** How the display draws a code. */
  datatype Style = Success | Interrupted | Failure | Unknown

  datatype CodeText = CodeText(style: Style, text: string)

  function DigitChar(d: nat): char
    requires d < 10
  {
    ('0' as int + d) as char
  }

  /** Decimal digits of `n`, most significant first. */
  function NatToString(n: nat): (s: string)
    ensures s != []
    ensures forall i :: 0 <= i < |s| ==> '0' <= s[i] <= '9'
    decreases n
  {
    if n < 10 then [DigitChar(n)] else NatToString(n / 10) + [DigitChar(n % 10)]
  }

  /** The decimal text of an integer, with `-` before a negative one. */
  function IntToString(i: int): (r: string)
    ensures r != [] && forall k :: 0 <= k < |r| ==> '0' <= r[k] <= '9' || (k == 0 && r[k] == '-')
    ensures r[0] == '-' <==> i < 0
  {
    if i < 0 then "-" + NatToString(-i) else NatToString(i)
  }

  /** Reads decimal digits back. */
  function ParseNat(s: string): nat
    requires forall i :: 0 <= i < |s| ==> '0' <= s[i] <= '9'
  {
    if s == [] then 0 else 10 * ParseNat(s[..|s| - 1]) + (s[|s| - 1] as int - '0' as int)
  }

  function ParseInt(s: string): int
    requires s != [] && forall i :: 0 <= i < |s| ==> ('0' <= s[i] <= '9' || (i == 0 && s[i] == '-'))
  {
    if s[0] == '-' then 0 - ParseNat(s[1..]) as int else ParseNat(s)
  }

  lemma {:induction false} NatToStringRoundTrip(n: nat)
    ensures ParseNat(NatToString(n)) == n
    decreases n
  {
    if n >= 10 {
      var s := NatToString(n);
      NatToStringRoundTrip(n / 10);
      assert s[..|s| - 1] == NatToString(n / 10);
    }
  }

  /** The text of an integer reads back as that integer. */
  lemma IntToStringRoundTrip(i: int)
    ensures var s := IntToString(i);
      s != [] && (forall k :: 0 <= k < |s| ==> ('0' <= s[k] <= '9' || (k == 0 && s[k] == '-'))) &&
      ParseInt(s) == i
  {
    if i < 0 {
      NatToStringRoundTrip(-i);
      assert IntToString(i)[1..] == NatToString(-i);
    } else {
      NatToStringRoundTrip(i);
    }
  }

  /** Left alignment in a field of `width` characters, as `format!` does
      for the exit code: padded with spaces on the right. */
  function PadRight(s: string, width: nat): (r: string)
    ensures |r| == if |s| < width then width else |s|
    ensures r[..|s|] == s
    ensures forall i :: |s| <= i < |r| ==> r[i] == ' '
  {
    if |s| < width then s + seq(width - |s|, _ => ' ') else s
  }

  /** Trailing spaces removed. */
  function TrimEnd(s: string): string
  {
    if s != [] && s[|s| - 1] == ' ' then TrimEnd(s[..|s| - 1]) else s
  }

  /** `get_exit_code_string`: 0 is drawn as success, 130 (an interrupt) as
      interrupted, any other code as an error with its number, and a
      missing code as `??`. */
  function GetExitCodeString(code: Option<int>): (r: CodeText)
    ensures |r.text| >= 3
  {
    match code
    case None => CodeText(Unknown, PadRight("?? ", 3))
    case Some(c) =>
      if c == 0 then CodeText(Success, PadRight("0", 3))
      else if c == 130 then CodeText(Interrupted, PadRight("130", 3))
      else CodeText(Failure, PadRight(IntToString(c), 3))
  }

  lemma {:induction false} TrimEndOfPadded(s: string, width: nat)
    requires s != [] && s[|s| - 1] != ' '
    ensures TrimEnd(PadRight(s, width)) == s
    decreases width
  {
    var r := PadRight(s, width);
    if |s| < width {
      if |s| + 1 < width {
        assert r[..|r| - 1] == PadRight(s, width - 1);
        TrimEndOfPadded(s, width - 1);
      } else {
        assert r[..|r| - 1] == s;
      }
    }
  }

  /** The style follows the code, and the text always shows the code's
      number: trimmed of its padding, it reads back as the code. */
  lemma ExitCodeStringShowsCode(code: Option<int>)
    ensures GetExitCodeString(code).style == Success <==> code == Some(0)
    ensures GetExitCodeString(code).style == Interrupted <==> code == Some(130)
    ensures GetExitCodeString(code).style == Unknown <==> code.None?
    ensures code.None? ==> GetExitCodeString(code).text == "?? "
    ensures code.Some? ==> TrimEnd(GetExitCodeString(code).text) == IntToString(code.value)
  {
    if code.Some? {
      var c := code.value;
      var s := IntToString(c);
      assert s[|s| - 1] != ' ' by {
        if c < 0 {
          assert s[|s| - 1] == NatToString(-c)[|NatToString(-c)| - 1];
        }
      }
      if c == 0 {
        assert s == "0";
      } else if c == 130 {
        assert NatToString(13) == "13";
        assert s == "130";
      }
      TrimEndOfPadded(s, 3);
    } else {
      assert PadRight("?? ", 3) == "?? ";
    }
  }

  /** On Unix, a command ended by SIGINT (signal 2) and one that exits with
      130 are shown the same way, as interrupted; elsewhere the signal is
      lost and the code is shown as `??`. */
  lemma InterruptShownAsInterrupted()
    ensures GetExitCodeUnix(ExitStatus(None, Some(2))) == GetExitCodeUnix(ExitStatus(Some(130), None)) == Some(130)
    ensures GetExitCodeString(GetExitCodeUnix(ExitStatus(None, Some(2)))).style == Interrupted
    ensures GetExitCodeString(GetExitCodeOther(ExitStatus(None, Some(2)))).style == Unknown
  {
  }
}
