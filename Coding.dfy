/**
 * The decisions of other/coding.cpp around uchardet and iconv: what the
 * detector and converter wrappers return, the identity shortcuts of
 * convertString and toUTF8, the list of supported encodings and the
 * console-encoding name tables.
 *
 * uchardet and iconv are parameters: a detector engine says whether
 * uchardet_handle_data accepts some data and which charset name (possibly
 * empty, standing for a null pointer too) uchardet_get_charset gives for it;
 * a converter is whether iconv_open succeeded plus its iconv call.
 */
module Coding {
  import opened Wrappers
  import opened Shared

  /** The errors of the encoding functions. */
  datatype EncodingError =
    | FileNotFound
    | NotRegularFile
    | CannotOpenFile
    | CannotReadFile
    | EmptyInput
    | DetectorCreationFailed
    | DetectionFailed
    | ConversionFailed
    | InvalidInput

  // ---------------------------------------------------------------------------
  // UchardetDetector

  /** What uchardet does: whether uchardet_new succeeded, whether handle_data accepts the data, the charset it names. */
  datatype Uchardet = Uchardet(created: bool, handleOk: string -> bool, charset: string -> string)

  /** The result of UchardetDetector::detect on a freshly reset detector. */
  function Detection(engine: Uchardet, data: string): (r: Result<string, EncodingError>)
    ensures r.Success? <==> engine.created && data != [] && engine.handleOk(data)
    ensures r.Failure? ==> r.error in {DetectorCreationFailed, EmptyInput, DetectionFailed}
    ensures !engine.created ==> r == Failure(DetectorCreationFailed)
    ensures engine.created && data == [] ==> r == Failure(EmptyInput)
    ensures engine.created && data != [] && !engine.handleOk(data) ==> r == Failure(DetectionFailed)
    ensures r.Success? ==> r.value != []
    ensures r.Success? && engine.charset(data) == [] ==> r.value == "unknown"
    ensures r.Success? && engine.charset(data) != [] ==> r.value == engine.charset(data)
  {
    if !engine.created then Failure(DetectorCreationFailed)
    else if data == [] then Failure(EmptyInput)
    else if !engine.handleOk(data) then Failure(DetectionFailed)
    else if engine.charset(data) == [] then Success("unknown")
    else Success(engine.charset(data))
  }

  /** The detector object: its uchardet handle, and the data fed to it since the last reset. */
  class UchardetDetector {
    const engine: Uchardet
    var fed: string

    constructor(engine: Uchardet)
      ensures this.engine == engine && fed == []
    {
      this.engine := engine;
      fed := [];
    }

    /** reset(): forget the data fed so far, when there is a handle. */
    method Reset()
      modifies this
      ensures fed == (if engine.created then [] else old(fed))
    {
      if engine.created {
        fed := [];
      }
    }

    /** detect(): reset, feed the data, and read the charset the engine names for it. */
    method Detect(data: string) returns (r: Result<string, EncodingError>)
      modifies this
      ensures r == Detection(engine, data)
      ensures fed == (if engine.created && data != [] then data else old(fed))
    {
      if !engine.created {
        return Failure(DetectorCreationFailed);
      }
      if data == [] {
        return Failure(EmptyInput);
      }
      Reset();
      fed := fed + data;
      assert fed == data;
      if !engine.handleOk(fed) {
        return Failure(DetectionFailed);
      }
      var charset := engine.charset(fed);
      if charset == [] {
        return Success("unknown");
      }
      return Success(charset);
    }
  }

  /** detectString: "empty" for no data, otherwise a fresh detector's verdict. */
  function DetectString(engine: Uchardet, str: string): (r: Result<string, EncodingError>)
    ensures str == [] ==> r == Success("empty")
    ensures r.Failure? ==> r.error in {DetectorCreationFailed, DetectionFailed}
    ensures r.Success? ==> r.value != []
  {
    if str == [] then Success("empty") else Detection(engine, str)
  }

  // ---------------------------------------------------------------------------
  // IconvConverter

  /** A converter: whether iconv_open succeeded, and its iconv call. */
  datatype IconvConverter = IconvConverter(valid: bool, iconv: Iconv)

  /** One iconv_open(to, from), as the C library would answer it. */
  type IconvOpen = (string, string) -> IconvConverter

  const BufferMultiplier: nat := 4

  /** The result of IconvConverter::convert. */
  function Conversion(conv: IconvConverter, input: string): (r: Result<string, EncodingError>)
    ensures !conv.valid ==> r == Failure(ConversionFailed)
    ensures conv.valid && input == [] ==> r == Success([])
    ensures r.Failure? ==> r.error == ConversionFailed
    ensures r.Success? && RespectsRoom(conv.iconv) ==> |r.value| <= BufferMultiplier * |input|
  {
    if !conv.valid then Failure(ConversionFailed)
    else if input == [] then Success([])
    else
      match conv.iconv(input, BufferMultiplier * |input|)
      case Converted(o) => Success(o)
      case OutputFull(_, _) => Failure(ConversionFailed)
      case Failed(_) => Failure(ConversionFailed)
  }

  /** The output of a converter that finishes never exceeds the buffer; anything else yields no partial output. */
  lemma ConversionOutcomes(conv: IconvConverter, input: string)
    requires conv.valid && input != []
    ensures Conversion(conv, input).Success? <==> conv.iconv(input, BufferMultiplier * |input|).Converted?
    ensures Conversion(conv, input).Success? ==> Conversion(conv, input).value == conv.iconv(input, BufferMultiplier * |input|).out
  {
  }

  // ---------------------------------------------------------------------------
  // convertString and toUTF8

  /** convertString: nothing to convert, or the same name on both sides, returns the input without opening iconv. */
  function ConvertString(input: string, from: string, to: string, open: IconvOpen): (r: Result<string, EncodingError>)
    ensures input == [] ==> r == Success([])
    ensures from == to ==> r == Success(input)
    ensures r.Failure? ==> r.error == ConversionFailed
  {
    if input == [] then Success([])
    else if from == to then Success(input)
    else Conversion(open(to, from), input)
  }

  /** Every converter iconv_open can build writes within its room. */
  ghost predicate OpenRespectsRoom(open: IconvOpen) {
    forall to, from :: RespectsRoom(open(to, from).iconv)
  }

  /** convertString never returns more than four bytes per input byte. */
  lemma ConvertStringBounded(input: string, from: string, to: string, open: IconvOpen)
    requires OpenRespectsRoom(open)
    ensures var r := ConvertString(input, from, to, open);
      r.Success? ==> |r.value| <= BufferMultiplier * |input|
  {
    assert RespectsRoom(open(to, from).iconv);
  }

  /** The source encoding toUTF8 settles on, or None when it gives the input back unchanged. */
  function SourceEncoding(input: string, from: string, engine: Uchardet): (r: Option<string>)
    ensures from != [] ==> r == Some(from)
    ensures from == [] && r.Some? ==> r.value != [] && r.value != "unknown" && r.value != "empty"
  {
    if from != [] then Some(from)
    else
      match DetectString(engine, input)
      case Failure(_) => None
      case Success(name) => if name == "unknown" || name == "empty" then None else Some(name)
  }

  /** toUTF8: an unknown or undetectable source gives the input back; "UTF-8" is not converted; the rest goes through convertString. */
  function ToUtf8(input: string, from: string, engine: Uchardet, open: IconvOpen): (r: Result<string, EncodingError>)
    ensures input == [] ==> r == Success([])
    ensures r.Failure? ==> r.error == ConversionFailed
  {
    if input == [] then Success([])
    else
      match SourceEncoding(input, from, engine)
      case None => Success(input)
      case Some(source) => if source == "UTF-8" then Success(input) else ConvertString(input, source, "UTF-8", open)
  }

  /** With a named source, toUTF8 is convertString to "UTF-8": its own "UTF-8" shortcut agrees with convertString's. */
  lemma ToUtf8IsConvertString(input: string, from: string, engine: Uchardet, open: IconvOpen)
    requires from != []
    ensures ToUtf8(input, from, engine, open) == ConvertString(input, from, "UTF-8", open)
  {
  }

  /** Without a source name, a failed, "unknown" or "empty" detection gives the input back, never an error. */
  lemma ToUtf8Fallback(input: string, engine: Uchardet, open: IconvOpen)
    requires input != []
    requires DetectString(engine, input).Failure?
      || DetectString(engine, input).value == "unknown"
      || DetectString(engine, input).value == "empty"
    ensures ToUtf8(input, [], engine, open) == Success(input)
  {
  }

  /** Without a source name, a detected charset is converted from exactly as if it had been named. */
  lemma ToUtf8Detected(input: string, engine: Uchardet, open: IconvOpen)
    requires input != [] && DetectString(engine, input).Success?
    requires DetectString(engine, input).value != "unknown" && DetectString(engine, input).value != "empty"
    ensures ToUtf8(input, [], engine, open) == ToUtf8(input, DetectString(engine, input).value, engine, open)
  {
  }

  // ---------------------------------------------------------------------------
  // Supported encodings

  /** The list isValidEncoding searches. */
  const ValidEncodings: seq<string> := [
    "UTF-8", "UTF-16", "UTF-32", "GB18030", "GBK", "GB2312",
    "BIG5", "SHIFT_JIS", "EUC-JP", "EUC-KR", "ISO-8859-1",
    "ASCII", "Windows-1252"]

  /** any_of over a list: whether some entry equals the name exactly. */
  function AnyEqual(list: seq<string>, name: string): (b: bool)
    ensures b <==> exists i :: 0 <= i < |list| && list[i] == name
  {
    if list == [] then false
    else list[0] == name || AnyEqual(list[1..], name)
  }

  /** isValidEncoding: an exact, case-sensitive match against the list. */
  function IsValidEncoding(encoding: string): (b: bool)
    ensures b <==> encoding in ValidEncodings
  {
    AnyEqual(ValidEncodings, encoding)
  }

  /** getSupportedEncodings: the same thirteen names, in the same order, each once. */
  function SupportedEncodings(): (r: seq<string>)
    ensures |r| == 13
    ensures forall i, j :: 0 <= i < j < |r| ==> r[i] != r[j]
  {
    [ "UTF-8", "UTF-16", "UTF-32", "GB18030", "GBK", "GB2312",
      "BIG5", "SHIFT_JIS", "EUC-JP", "EUC-KR", "ISO-8859-1",
      "ASCII", "Windows-1252"]
  }

  /** getSupportedEncodings lists the names isValidEncoding accepts, in the same order. */
  lemma SupportedIsValidList()
    ensures SupportedEncodings() == ValidEncodings
  {
  }

  /** A name is valid exactly when it is among the supported encodings. */
  lemma ValidIffSupported(encoding: string)
    ensures SupportedEncodings() == ValidEncodings
    ensures IsValidEncoding(encoding) <==> encoding in SupportedEncodings()
  {
    SupportedIsValidList();
  }

  /** The check is case-sensitive. */
  lemma ValidEncodingCaseSensitive()
    ensures IsValidEncoding("UTF-8") && !IsValidEncoding("utf-8")
    ensures IsValidEncoding("Windows-1252") && !IsValidEncoding("WINDOWS-1252")
  {
    assert ValidEncodings[0] == "UTF-8";
    assert ValidEncodings[12] == "Windows-1252";
    InitialsUppercase();
    OnlyTwelveCharName();
    assert "WINDOWS-1252" != "Windows-1252" by {
      assert "WINDOWS-1252"[1] != "Windows-1252"[1];
    }
  }

  /** Every listed name starts with an uppercase letter. */
  lemma InitialsUppercase()
    ensures forall i :: 0 <= i < |ValidEncodings| ==> |ValidEncodings[i]| > 0 && 'A' <= ValidEncodings[i][0] <= 'Z'
  {
  }

  /** "Windows-1252" is the only listed name of twelve characters. */
  lemma OnlyTwelveCharName()
    ensures forall i :: 0 <= i < |ValidEncodings| && |ValidEncodings[i]| == 12 ==> ValidEncodings[i] == "Windows-1252"
  {
  }

  // ---------------------------------------------------------------------------
  // getConsoleEncoding, POSIX branch

  const Lowercase: string := "abcdefghijklmnopqrstuvwxyz"
  const Uppercase: string := "ABCDEFGHIJKLMNOPQRSTUVWXYZ"

  /** ::toupper in the C locale: a lowercase letter becomes its capital, everything else stays. */
  function ToUpper(c: char): (u: char)
    ensures !('a' <= u <= 'z')
    ensures u != c <==> 'a' <= c <= 'z'
  {
    if 'a' <= c <= 'z' then (c as int - 32) as char else c
  }

  /** Each lowercase letter becomes the capital at the same place in the alphabet. */
  lemma ToUpperAlphabet()
    ensures forall k :: 0 <= k < 26 ==> ToUpper(Lowercase[k]) == Uppercase[k]
  {
  }

  /** The std::transform that uppercases the codeset in place. */
  method UppercaseInPlace(a: array<char>)
    modifies a
    ensures forall i :: 0 <= i < a.Length ==> a[i] == ToUpper(old(a[i]))
    ensures a[..] == Upper(old(a[..]))
  {
    var i := 0;
    while i < a.Length
      invariant 0 <= i <= a.Length
      invariant forall k :: 0 <= k < i ==> a[k] == ToUpper(old(a[k]))
      invariant forall k :: i <= k < a.Length ==> a[k] == old(a[k])
    {
      a[i] := ToUpper(a[i]);
      i := i + 1;
    }
  }

  /** The uppercased codeset as a value. */
  function Upper(s: string): string {
    seq(|s|, i requires 0 <= i < |s| => ToUpper(s[i]))
  }

  /** The uppercased codeset keeps its length, has no lowercase letter left, and only lowercase letters change. */
  lemma UpperFacts(s: string)
    ensures |Upper(s)| == |s|
    ensures forall i :: 0 <= i < |s| ==> !('a' <= Upper(s)[i] <= 'z')
    ensures forall i :: 0 <= i < |s| && !('a' <= s[i] <= 'z') ==> Upper(s)[i] == s[i]
  {
  }

  /** Uppercasing twice is uppercasing once. */
  lemma UpperIdempotent(s: string)
    ensures Upper(Upper(s)) == Upper(s)
  {
    var u := Upper(s);
    assert forall i :: 0 <= i < |u| ==> u[i] == ToUpper(s[i]);
    assert forall i :: 0 <= i < |u| ==> Upper(u)[i] == ToUpper(u[i]) == u[i];
  }

  /** The alias groups: each uppercased spelling and the canonical name it stands for. */
  function CanonicalName(upper: string): Option<string> {
    if upper == "UTF8" || upper == "UTF-8" then Some("UTF-8")
    else if upper == "GB2312" || upper == "EUC-CN" then Some("GB2312")
    else if upper == "GBK" || upper == "CP936" then Some("GBK")
    else if upper == "GB18030" then Some("GB18030")
    else if upper == "BIG5" || upper == "BIG-5" || upper == "CP950" then Some("BIG5")
    else if upper == "EUCJP" || upper == "EUC-JP" then Some("EUC-JP")
    else if upper == "SJIS" || upper == "SHIFT-JIS" || upper == "CP932" then Some("SHIFT_JIS")
    else if upper == "EUCKR" || upper == "EUC-KR" then Some("EUC-KR")
    else if upper == "ISO88591" || upper == "ISO-8859-1" || upper == "LATIN1" then Some("ISO-8859-1")
    else if upper == "ASCII" || upper == "US-ASCII" || upper == "ANSI_X3.4-1968" then Some("ASCII")
    else if upper == "CP1252" || upper == "WINDOWS-1252" then Some("Windows-1252")
    else None
  }

  /**
   * getConsoleEncoding on POSIX: `localeOk` is whether setlocale answers,
   * `codeset` what nl_langinfo(CODESET) gives (None for a null pointer).
   */
  function ConsoleEncodingPosix(localeOk: bool, codeset: Option<string>): (r: string)
    ensures r == [] <==> !localeOk || codeset.None? || codeset.value == []
    ensures r != [] && r != codeset.value ==> IsValidEncoding(r)
  {
    if !localeOk || codeset.None? || codeset.value == [] then []
    else
      match CanonicalName(Upper(codeset.value))
      case Some(name) => name
      case None => codeset.value
  }

  /** Every canonical name is a supported encoding. */
  lemma CanonicalNamesValid(upper: string)
    ensures CanonicalName(upper).Some? ==> IsValidEncoding(CanonicalName(upper).value)
  {
    assert ValidEncodings == SupportedEncodings();
  }

  /** The names the alias groups map to. */
  const CanonicalNames: set<string> := {"UTF-8", "GB2312", "GBK", "GB18030", "BIG5", "EUC-JP", "SHIFT_JIS", "EUC-KR", "ISO-8859-1", "ASCII", "Windows-1252"}

  lemma CanonicalNameRange(upper: string)
    ensures CanonicalName(upper).Some? ==> CanonicalName(upper).value in CanonicalNames
  {
  }

  /** The Chinese and Unicode names read back from the locale are answered with themselves. */
  lemma ChineseNamesFixed(v: string)
    requires v in {"UTF-8", "GB2312", "GBK", "GB18030", "BIG5"}
    ensures ConsoleEncodingPosix(true, Some(v)) == v
  {
    if v == "UTF-8" {
      assert Upper(v) == "UTF-8";
      assert CanonicalName("UTF-8") == Some("UTF-8");
    } else if v == "GB2312" {
      assert Upper(v) == "GB2312";
      assert CanonicalName("GB2312") == Some("GB2312");
    } else if v == "GBK" {
      assert Upper(v) == "GBK";
      assert CanonicalName("GBK") == Some("GBK");
    } else if v == "GB18030" {
      assert Upper(v) == "GB18030";
      assert CanonicalName("GB18030") == Some("GB18030");
    } else {
      assert Upper(v) == "BIG5";
      assert CanonicalName("BIG5") == Some("BIG5");
    }
  }

  /** The Japanese and Korean names read back from the locale are answered with themselves. */
  lemma JapaneseKoreanNamesFixed(v: string)
    requires v in {"EUC-JP", "SHIFT_JIS", "EUC-KR"}
    ensures ConsoleEncodingPosix(true, Some(v)) == v
  {
    if v == "EUC-JP" {
      assert Upper(v) == "EUC-JP";
      assert CanonicalName("EUC-JP") == Some("EUC-JP");
    } else if v == "SHIFT_JIS" {
      assert Upper(v) == "SHIFT_JIS";
      assert CanonicalName("SHIFT_JIS").None?;
    } else {
      assert Upper(v) == "EUC-KR";
      assert CanonicalName("EUC-KR") == Some("EUC-KR");
    }
  }

  /** The Latin names read back from the locale are answered with themselves. */
  lemma LatinNamesFixed(v: string)
    requires v in {"ISO-8859-1", "ASCII"}
    ensures ConsoleEncodingPosix(true, Some(v)) == v
  {
    if v == "ISO-8859-1" {
      assert Upper(v) == "ISO-8859-1";
      assert CanonicalName("ISO-8859-1") == Some("ISO-8859-1");
    } else {
      assert Upper(v) == "ASCII";
      assert CanonicalName("ASCII") == Some("ASCII");
    }
  }

  /** "Windows-1252" is uppercased to its alias "WINDOWS-1252", which maps back to it. */
  lemma WindowsLatinNameFixed()
    ensures ConsoleEncodingPosix(true, Some("Windows-1252")) == "Windows-1252"
  {
    assert Upper("Windows-1252") == "WINDOWS-1252";
    assert CanonicalName("WINDOWS-1252") == Some("Windows-1252");
  }

  /** Feeding the answer back in gives the same answer. */
  lemma ConsoleEncodingPosixIdempotent(codeset: string)
    requires codeset != []
    ensures var r := ConsoleEncodingPosix(true, Some(codeset));
      ConsoleEncodingPosix(true, Some(r)) == r
  {
    CanonicalNameRange(Upper(codeset));
    var n := CanonicalName(Upper(codeset));
    if n.None? {
      assert ConsoleEncodingPosix(true, Some(codeset)) == codeset;
    } else {
      var v := n.value;
      assert ConsoleEncodingPosix(true, Some(codeset)) == v;
      if v in {"UTF-8", "GB2312", "GBK", "GB18030", "BIG5"} {
        ChineseNamesFixed(v);
      } else if v in {"EUC-JP", "SHIFT_JIS", "EUC-KR"} {
        JapaneseKoreanNamesFixed(v);
      } else if v in {"ISO-8859-1", "ASCII"} {
        LatinNamesFixed(v);
      } else {
        WindowsLatinNameFixed();
      }
    }
  }

  /** The aliases are matched case-insensitively. */
  lemma ConsoleEncodingPosixExamples()
    ensures ConsoleEncodingPosix(true, Some("utf8")) == "UTF-8"
    ensures ConsoleEncodingPosix(true, Some("sjis")) == "SHIFT_JIS"
  {
    assert Upper("utf8") == "UTF8";
    assert CanonicalName("UTF8") == Some("UTF-8");
    assert Upper("sjis") == "SJIS";
    assert CanonicalName("SJIS") == Some("SHIFT_JIS");
  }

  /** A codeset in no alias group, in whatever case, comes back exactly as spelled. */
  lemma ConsoleEncodingPosixPassThrough(c: string)
    requires c != []
    ensures CanonicalName(Upper(c)).None? ==> ConsoleEncodingPosix(true, Some(c)) == c
    ensures CanonicalName(Upper(c)).Some? ==> ConsoleEncodingPosix(true, Some(c)) in CanonicalNames
  {
    CanonicalNameRange(Upper(c));
  }

  /** Every ISO-8859 part other than 1 is in no alias group, so it comes back exactly as spelled. */
  lemma ConsoleEncodingPosixIsoVariants(c: string)
    requires |c| > 9 && Upper(c)[..9] == "ISO-8859-" && Upper(c) != "ISO-8859-1"
    ensures ConsoleEncodingPosix(true, Some(c)) == c
  {
    var u := Upper(c);
    assert u[0] == 'I' && u[3] == '-';
    assert CanonicalName(u).None?;
  }

  /** Aliases are matched case-insensitively: two spellings of an alias give the same answer. */
  lemma ConsoleEncodingPosixCaseInsensitive(c1: string, c2: string)
    requires c1 != [] && c2 != []
    requires Upper(c1) == Upper(c2) && CanonicalName(Upper(c1)).Some?
    ensures ConsoleEncodingPosix(true, Some(c1)) == ConsoleEncodingPosix(true, Some(c2)) == CanonicalName(Upper(c1)).value
  {
  }

  /** Unknown names come back exactly as spelled, and without a locale there is no answer. */
  lemma ConsoleEncodingPosixUnknown()
    ensures ConsoleEncodingPosix(true, Some("iso-8859-2")) == "iso-8859-2"
    ensures ConsoleEncodingPosix(false, Some("UTF-8")) == ""
  {
    assert Upper("iso-8859-2") == "ISO-8859-2";
    assert CanonicalName("ISO-8859-2").None?;
  }

  // ---------------------------------------------------------------------------
  // getConsoleEncoding, Windows branch

  function DigitChar(d: nat): char
    requires d < 10
  {
    ('0' as int + d) as char
  }

  /** std::format("{}", n): n in decimal, without leading zeros. */
  function Decimal(n: nat): (r: string)
    ensures |r| > 0
    ensures forall i :: 0 <= i < |r| ==> '0' <= r[i] <= '9'
    ensures n > 0 ==> r[0] != '0'
  {
    if n < 10 then [DigitChar(n)] else Decimal(n / 10) + [DigitChar(n % 10)]
  }

  /** Reading a string of digits back as a number. */
  function ParseDecimal(s: string): Option<nat> {
    if s == [] || !('0' <= s[|s| - 1] <= '9') then None
    else if |s| == 1 then Some(s[0] as int - '0' as int)
    else
      match ParseDecimal(s[..|s| - 1])
      case None => None
      case Some(v) => Some(10 * v + (s[|s| - 1] as int - '0' as int))
  }

  lemma {:induction false} DecimalRoundTrip(n: nat)
    ensures ParseDecimal(Decimal(n)) == Some(n)
  {
    if n >= 10 {
      DecimalRoundTrip(n / 10);
      var r := Decimal(n);
      assert r[..|r| - 1] == Decimal(n / 10);
    }
  }

  /** The switch of getConsoleEncoding on Windows: the codepages it names, None for its default branch. */
  function CodepageName(codepage: nat): (r: Option<string>)
    ensures r.Some? ==> r.value != []
  {
    match codepage
    case 65001 => Some("UTF-8")
    case 936 => Some("GBK")
    case 950 => Some("BIG5")
    case 932 => Some("SHIFT_JIS")
    case 949 => Some("EUC-KR")
    case 1252 => Some("Windows-1252")
    case 1251 => Some("Windows-1251")
    case 1250 => Some("Windows-1250")
    case 1254 => Some("Windows-1254")
    case 1253 => Some("Windows-1253")
    case 1255 => Some("Windows-1255")
    case 1256 => Some("Windows-1256")
    case 1257 => Some("Windows-1257")
    case 1258 => Some("Windows-1258")
    case 437 => Some("CP437")
    case 850 => Some("CP850")
    case 852 => Some("CP852")
    case 855 => Some("CP855")
    case 857 => Some("CP857")
    case 860 => Some("CP860")
    case 861 => Some("CP861")
    case 862 => Some("CP862")
    case 863 => Some("CP863")
    case 864 => Some("CP864")
    case 865 => Some("CP865")
    case 866 => Some("CP866")
    case 869 => Some("CP869")
    case 874 => Some("Windows-874")
    case 20866 => Some("KOI8-R")
    case 21866 => Some("KOI8-U")
    case 28591 => Some("ISO-8859-1")
    case 28592 => Some("ISO-8859-2")
    case 28593 => Some("ISO-8859-3")
    case 28594 => Some("ISO-8859-4")
    case 28595 => Some("ISO-8859-5")
    case 28596 => Some("ISO-8859-6")
    case 28597 => Some("ISO-8859-7")
    case 28598 => Some("ISO-8859-8")
    case 28599 => Some("ISO-8859-9")
    case 28603 => Some("ISO-8859-13")
    case 28605 => Some("ISO-8859-15")
    case 54936 => Some("GB18030")
    case _ => None
  }

  /** getConsoleEncoding on Windows, given GetConsoleOutputCP(): "" for 0, the switch's name, or "CP" and the number. */
  function ConsoleEncodingWindows(codepage: nat): (r: string)
    ensures r == [] <==> codepage == 0
  {
    if codepage == 0 then ""
    else
      match CodepageName(codepage)
      case Some(name) => name
      case None => "CP" + Decimal(codepage)
  }

  /** A codepage outside the table is named "CP" and its number, and that number reads back to the codepage. */
  lemma FallbackName(codepage: nat)
    requires codepage > 0 && CodepageName(codepage).None?
    ensures ConsoleEncodingWindows(codepage) == "CP" + Decimal(codepage)
    ensures ParseDecimal(ConsoleEncodingWindows(codepage)[2..]) == Some(codepage)
  {
    DecimalRoundTrip(codepage);
    var r := "CP" + Decimal(codepage);
    assert r[2..] == Decimal(codepage);
  }

  /** Two codepages outside the table never share a name. */
  lemma FallbackNamesDistinct(a: nat, b: nat)
    requires a > 0 && CodepageName(a).None? && b > 0 && CodepageName(b).None?
    requires ConsoleEncodingWindows(a) == ConsoleEncodingWindows(b)
    ensures a == b
  {
    FallbackName(a);
    FallbackName(b);
  }

  /** A few codepages of the table and one outside it. */
  lemma ConsoleEncodingWindowsExamples()
    ensures ConsoleEncodingWindows(65001) == "UTF-8"
    ensures ConsoleEncodingWindows(936) == "GBK"
    ensures ConsoleEncodingWindows(28605) == "ISO-8859-15"
  {
  }

  /** Codepage 1200 is outside the table, so it is named by its number. */
  lemma ConsoleEncodingWindowsFallbackExample()
    ensures ConsoleEncodingWindows(1200) == "CP1200"
  {
    assert Decimal(12) == "12";
    assert Decimal(120) == "120";
    assert Decimal(1200) == "1200";
  }
}
