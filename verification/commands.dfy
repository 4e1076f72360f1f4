/**
 * The PC app's serial commands: `MAP <key> <text>` binds a keypad key to a
 * text action, and `IMG <len>` announces a frame buffer of `len` bytes. The
 * parsers here are the inverses the formatting is checked against.
 */
module Commands {
  import opened Wrappers
  import Ssd1306Buffer

  /** Why `send_map` refuses to send. */
  datatype CommandError = KeyNotSingleChar

  /** `send_map`: the key must be exactly one character; the command is `MAP <key> <text>` plus a newline. */
  function MapCommand(key: string, text: string): (r: Result<string, CommandError>)
    ensures r.Err? <==> |key| != 1
    ensures r.Ok? ==> |r.value| == |text| + 7 && r.value[..4] == "MAP " && r.value[|r.value| - 1] == '\n'
  {
    if key == [] || |key| != 1 then Err(KeyNotSingleChar)
    else Ok("MAP " + key + " " + text + "\n")
  }

  /** Splits a `MAP` command into its key and its text. */
  function ParseMap(cmd: string): Option<(char, string)>
  {
    if |cmd| >= 7 && cmd[..4] == "MAP " && cmd[5] == ' ' && cmd[|cmd| - 1] == '\n'
    then Some((cmd[4], cmd[6..|cmd| - 1]))
    else None
  }

  /** Every accepted `MAP` command carries exactly the key and the text it was built from, whatever the text holds. */
  lemma MapRoundTrip(key: string, text: string)
    requires |key| == 1
    ensures ParseMap(MapCommand(key, text).value) == Some((key[0], text))
  {
    var cmd := "MAP " + key + " " + text + "\n";
    assert cmd[..4] == "MAP " && cmd[4] == key[0] && cmd[5] == ' ';
    assert cmd[6..|cmd| - 1] == text;
  }

  predicate IsDigit(c: char)
  {
    '0' <= c <= '9'
  }

  predicate AllDigits(s: string)
  {
    forall i :: 0 <= i < |s| ==> IsDigit(s[i])
  }

  function DigitChar(d: int): (c: char)
    requires 0 <= d < 10
    ensures IsDigit(c) && c as int - '0' as int == d
  {
    (('0' as int) + d) as char
  }

  /** Python's decimal rendering of a length: digits only, no leading zero. */
  function Decimal(n: nat): (s: string)
    ensures |s| >= 1 && AllDigits(s)
    ensures s[0] == '0' ==> n == 0
  {
    if n < 10 then [DigitChar(n)] else Decimal(n / 10) + [DigitChar(n % 10)]
  }

  /** The number a string of decimal digits denotes. */
  function DecimalValue(s: string): nat
    requires AllDigits(s)
  {
    if s == [] then 0 else DecimalValue(s[..|s| - 1]) * 10 + (s[|s| - 1] as int - '0' as int)
  }

  /** Reading the rendered digits back gives the number rendered. */
  lemma {:induction false} DecimalRoundTrip(n: nat)
    ensures DecimalValue(Decimal(n)) == n
  {
    if n >= 10 {
      var s := Decimal(n);
      assert s[..|s| - 1] == Decimal(n / 10);
      DecimalRoundTrip(n / 10);
    }
  }

  /** `send_image`'s header: `IMG `, the buffer length in decimal, a newline. */
  function ImageHeader(len: nat): (h: string)
    ensures |h| >= 6 && h[..4] == "IMG " && h[|h| - 1] == '\n'
    ensures AllDigits(h[4..|h| - 1])
  {
    "IMG " + Decimal(len) + "\n"
  }

  /** Reads the announced length back out of an `IMG` header. */
  function ParseImageHeader(h: string): Option<nat>
  {
    if |h| >= 6 && h[..4] == "IMG " && h[|h| - 1] == '\n' && AllDigits(h[4..|h| - 1])
    then Some(DecimalValue(h[4..|h| - 1]))
    else None
  }

  /** The header announces exactly the length it was built from. */
  lemma ImageHeaderRoundTrip(len: nat)
    ensures ParseImageHeader(ImageHeader(len)) == Some(len)
  {
    var h := ImageHeader(len);
    assert h[..4] == "IMG ";
    assert h[4..|h| - 1] == Decimal(len);
    DecimalRoundTrip(len);
  }

  /** For the default 128 x 32 panel the header always reads `IMG 512`. */
  lemma DefaultImageHeader(px: seq<seq<bool>>)
    requires Ssd1306Buffer.IsBitmap(px, 128, 32)
    ensures ImageHeader(|Ssd1306Buffer.Packed(px, 128, 32)|) == "IMG 512\n"
  {
    assert Decimal(512) == "512" by {
      assert Decimal(5) == "5";
      assert Decimal(51) == Decimal(5) + [DigitChar(1)];
    }
  }
}
