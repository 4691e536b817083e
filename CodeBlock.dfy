/**
 * CodeBlock::LanguageIdentifier::add of tools/tool_core/CodeBlock.cpp: read
 * a file as UTF-8, split it at a signed line number, tag the untagged fenced
 * blocks of one part, and save the rejoined text in the file's charset.
 *
 * Everything outside the text logic is an input: what detect_file_charset
 * found, the bytes the read produced, whether each iconv_open succeeds, the
 * two iconv callbacks, and whether writing the file succeeds.
 */
module CodeBlock {
  import opened Wrappers
  import opened Fence
  import opened BlockEdit
  import opened ToolCore
  import opened Shared

  /** The severities of a log entry. */
  datatype LogType = Info | MainInfo | Warn | Error

  datatype Log = Log(kind: LogType, message: string)

  /** What an operation of the tool reports: whether it succeeded, and its log entries. */
  datatype FinalFuncReturn = FinalFuncReturn(success: bool, logs: seq<Log>)

  /** The file and charset services the operation calls. */
  datatype FileAccess = FileAccess(
    charset: Option<string>,
    bytes: Option<string>,
    readOpenOk: bool,
    readIconv: Iconv,
    saveOpenOk: bool,
    saveIconv: Iconv,
    fileOpenOk: bool,
    writeOk: bool)

  const DetectFailed: FinalFuncReturn := FinalFuncReturn(false, [Log(Error, "检测字符集遇到错误")])
  const ReadFailed: FinalFuncReturn := FinalFuncReturn(false, [Log(Error, "读取文件为utf8遇到错误")])

  function SaveFailed(path: string): FinalFuncReturn {
    FinalFuncReturn(false, [Log(Error, "保存失败：" + path)])
  }

  function Done(path: string): FinalFuncReturn {
    FinalFuncReturn(true, [Log(Info, "处理完成：" + path)])
  }

  function Unchanged(path: string): FinalFuncReturn {
    FinalFuncReturn(true, [Log(Info, "未发生修改：" + path)])
  }

  /** A cut at the start, at the end or just after a newline. */
  predicate LineBoundary(data: string, k: nat)
    requires k <= |data|
  {
    k == 0 || k == |data| || data[k - 1] == '\n'
  }

  /** The part of the split text that is edited: the tail for a positive start, the head otherwise. */
  function EditedPart(data: string, start: int): string {
    var p := SplitPosition(data, start);
    if start > 0 then data[p..] else data[..p]
  }

  /** The text from a line boundary on is a suffix cut at that boundary. */
  lemma TailAtBoundary(data: string, p: nat)
    requires p <= |data| && LineBoundary(data, p)
    ensures var r := data[p..]; r == data[|data| - |r|..] && LineBoundary(data, |data| - |r|)
  {
    assert |data| - |data[p..]| == p;
  }

  /** The text before a line boundary is a prefix cut at that boundary. */
  lemma HeadAtBoundary(data: string, p: nat)
    requires p <= |data| && LineBoundary(data, p)
    ensures var r := data[..p]; r == data[..|r|] && LineBoundary(data, |r|)
  {
    assert |data[..p]| == p;
  }

  /** The edited part is a suffix for a positive start and a prefix otherwise, cut at a line boundary. */
  lemma EditedPartCut(data: string, start: int)
    ensures |EditedPart(data, start)| <= |data|
    ensures start > 0 ==> var r := EditedPart(data, start);
      r == data[|data| - |r|..] && LineBoundary(data, |data| - |r|)
    ensures start <= 0 ==> var r := EditedPart(data, start);
      r == data[..|r|] && LineBoundary(data, |r|)
  {
    var p := SplitPosition(data, start);
    assert LineBoundary(data, p);
    if start > 0 {
      assert EditedPart(data, start) == data[p..];
      TailAtBoundary(data, p);
    } else {
      assert EditedPart(data, start) == data[..p];
      HeadAtBoundary(data, p);
    }
  }

  /** The text handed to saveUtf8ToFile: the edited part rewritten and put back in its place. */
  function Rejoined(data: string, start: int, language: string): string {
    var p := SplitPosition(data, start);
    var op := AddLanguage(language);
    if start > 0 then data[..p] + Rewrite(data[p..], op) else Rewrite(data[..p], op) + data[p..]
  }

  /**
   * The whole of LanguageIdentifier::add. `written` is what saveUtf8ToFile
   * hands to the opened file, if it gets that far. The readToUtf8 callback must make progress on
   * E2BIG, as the chunk loop does not end otherwise.
   */
  method LanguageIdentifierAdd(path: string, language: string, start: int, io: FileAccess)
    returns (rt: FinalFuncReturn, written: Option<string>)
    requires ChunkProgress(io.readIconv)
    ensures io.charset.None? ==> rt == DetectFailed && written.None?
    ensures io.charset.Some? && ReadUtf8(io.bytes, io.charset.value, io.readOpenOk, io.readIconv).None? ==>
      rt == ReadFailed && written.None?
    ensures io.charset.Some? && ReadUtf8(io.bytes, io.charset.value, io.readOpenOk, io.readIconv).Some? ==>
      var data := ReadUtf8(io.bytes, io.charset.value, io.readOpenOk, io.readIconv).value;
      if !AnyChange(EditedPart(data, start), AddLanguage(language)) then
        rt == Unchanged(path) && written.None?
      else
        var saved := SaveUtf8ToFile(Rejoined(data, start, language), io.charset.value, io.saveOpenOk, io.saveIconv, io.fileOpenOk, io.writeOk);
        written == saved.written && rt == (if saved.ok then Done(path) else SaveFailed(path))
  {
    if io.charset.None? {
      return DetectFailed, None;
    }
    var charset := io.charset.value;
    var data := ReadToUtf8(io.bytes, charset, io.readOpenOk, io.readIconv);
    if data.None? {
      return ReadFailed, None;
    }
    var head, tail := SplitFromLine(data.value, start);
    var content := if start > 0 then tail else head;
    var result, modified := RewriteBlocks(content, AddLanguage(language));
    if !modified {
      return Unchanged(path), None;
    }
    if start > 0 {
      tail := result;
    } else {
      head := result;
    }
    var saved := SaveUtf8ToFile(head + tail, charset, io.saveOpenOk, io.saveIconv, io.fileOpenOk, io.writeOk);
    if !saved.ok {
      return SaveFailed(path), saved.written;
    }
    return Done(path), saved.written;
  }

  // ---------------------------------------------------------------------------
  // What add promises

  /** The part that is not edited comes back byte for byte, in its place. */
  lemma RejoinedKeepsOtherPart(data: string, start: int, language: string)
    ensures var p := SplitPosition(data, start);
      var r := Rejoined(data, start, language);
      && (start > 0 ==> |r| >= p && r[..p] == data[..p])
      && (start <= 0 ==> |r| >= |data| - p && r[|r| - (|data| - p)..] == data[p..])
  {
    var p := SplitPosition(data, start);
    var r := Rejoined(data, start, language);
    if start > 0 {
      var e := Rewrite(data[p..], AddLanguage(language));
      assert r == data[..p] + e;
      assert r[..p] == data[..p];
    } else {
      var e := Rewrite(data[..p], AddLanguage(language));
      assert r == e + data[p..];
      assert r[|e|..] == data[p..];
    }
  }

  /** When the edited part has no block to tag, the rejoined text is the text read. */
  lemma RejoinedUnchanged(data: string, start: int, language: string)
    requires !AnyChange(EditedPart(data, start), AddLanguage(language))
    ensures Rejoined(data, start, language) == data
  {
    var p := SplitPosition(data, start);
    UnchangedRewrite(EditedPart(data, start), AddLanguage(language));
    assert data[..p] + data[p..] == data;
  }

  /**
   * Line 0, line 1, and the negative lines -1 and -2 all edit the whole
   * text, so add then does what addl_ does to it.
   */
  lemma WholeTextStarts(data: string, start: int, language: string)
    requires start == 0 || start == 1 || start == -1 || start == -2
    ensures EditedPart(data, start) == data
    ensures Rejoined(data, start, language) == Rewrite(data, AddLanguage(language))
  {
    SplitLastLines(data);
    if data != [] {
      LineTableShape(data);
    }
    var p := SplitPosition(data, start);
    if start == 1 {
      assert p == 0;
      assert data[..0] + Rewrite(data, AddLanguage(language)) == Rewrite(data, AddLanguage(language));
    } else {
      assert p == |data|;
      assert Rewrite(data, AddLanguage(language)) + data[|data|..] == Rewrite(data, AddLanguage(language));
    }
  }

  /** Adding the empty tag rebuilds every block as it was, so the text comes back unchanged. */
  lemma {:induction false} EmptyTagRewrite(s: string)
    ensures Rewrite(s, AddLanguage([])) == s
    decreases |s|
  {
    if FindAndConsume(s).Some? {
      var m := FindAndConsume(s).value;
      ConsumeSplits(s);
      EmptyTagRewrite(m.remaining);
      assert Edit(AddLanguage([]), m.block) == m.block;
    }
  }

  /**
   * add does not refuse an empty language: an untagged block in the edited
   * part still counts as a modification, and the text read is saved back
   * as it was.
   */
  lemma EmptyLanguageSavesSameText(data: string, start: int)
    ensures Rejoined(data, start, []) == data
  {
    var p := SplitPosition(data, start);
    EmptyTagRewrite(data[..p]);
    EmptyTagRewrite(data[p..]);
    assert data[..p] + data[p..] == data;
  }
}
