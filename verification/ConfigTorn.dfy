/** A real torn write inside recovery that changes what is recovered. */
module ConfigTorn {
  import opened Basics
  import opened ConfigVolume
  import opened ConfigRecovery
  import opened IniParser
  import IniLines
  import IniFormat
  import IniFormatMeaning
  import IniReturns

  /** A small boot configuration, and the same with a closing comment. */
  function Short(): string {
    IniReturns.TidyText()
  }

  function Long(): string {
    Short() + "#" + "\r\n"
  }

  lemma TextsParse()
    ensures Parse(Short()) == Ok(IniReturns.AFTER_CONTROLLER.config) && Parse(Long()) == Parse(Short())
    ensures BootReady(IniReturns.AFTER_CONTROLLER.config)
  {
    IniReturns.TidyTextMeaning();
    IniFormatMeaning.ConcludeGenerated(IniReturns.AFTER_CONTROLLER);
    IniReturns.TidyTextSize();
    CrLfText();
    hide Meaning, Conclude, Short, ParseLine, AtBoundary;
    AppendLine(Short(), "#", CRLF);
    IniLines.CommentLine(Meaning(Short()), "#");
  }

  lemma TextsUsable()
    ensures UsableFile(Short()) && UsableFile(Long()) && Short() < Long()
  {
    TextsParse();
    IniReturns.TidyTextSize();
    hide Parse, IniReturns.TidyText;
  }

  /** Recovering the longer text, torn to the shorter one: both are usable, so a
      crash at that moment makes the next recovery load other bytes. */
  lemma TornRecoveryDiffers()
    ensures var f := map[Previous := Long()];
      var m := f[Active := Short()];
      && !HasUsable(f, Active) && Differ(m, f, {Active}) && Short() < Long()
      && Recover(f) == Some(Long()) && Recover(m) == Some(Short())
  {
    TextsUsable();
    hide UsableFile, Short, Long;
    var f := map[Previous := Long()];
    DifferIntro(f[Active := Short()], f, {Active});
  }
}
