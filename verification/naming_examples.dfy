/** The conversions documented for `NamingConvention.Snake`, worked out on
    the model. */
module NamingConventionExamples {
  import opened Wrappers
  import opened NamingConvention

  /** Joining two runs of the loop: the scan of `a + b` from an empty
      builder. */
  lemma LoopChain(a: string, b: string, s1: ScanState, s2: ScanState, sep: char, mode: CaseMode)
    requires s1.upperCount <= |s1.builder|
    requires Loop(ScanState([], 0), a, 0, sep, mode) == s1
    requires Loop(s1, b, |a|, sep, mode) == s2
    ensures Loop(ScanState([], 0), a + b, 0, sep, mode) == s2
  {
    LoopAppend(ScanState([], 0), a, b, 0, sep, mode);
  }

  // Examples documented for `Snake.fromCamel` (lower case) and
  // `Snake.fromCamelKeepCase`; the upper-case ones follow from
  // `Camel2SeparatorModes`.

  lemma SnakeMacKeep()
    ensures Camel2Separator(Some("MAC"), SnakeSeparator, Keep) == Some("MAC")
  {
    assert Loop(ScanState([], 0), "MAC", 0, SnakeSeparator, Keep) == ScanState("MAC", 3);
    Camel2SeparatorLoop("MAC", SnakeSeparator, Keep);
  }

  lemma SnakeMacLower()
    ensures Camel2Separator(Some("MAC"), SnakeSeparator, LowerCase) == Some("mac")
  {
    assert Loop(ScanState([], 0), "MAC", 0, SnakeSeparator, LowerCase) == ScanState("mac", 3);
    Camel2SeparatorLoop("MAC", SnakeSeparator, LowerCase);
  }

  lemma SnakeRemoteUrlKeepRuns()
    ensures Loop(ScanState([], 0), "remote", 0, SnakeSeparator, Keep) == ScanState("remote", 0)
    ensures Loop(ScanState("remote", 0), "URL", 6, SnakeSeparator, Keep) == ScanState("remote_URL", 3)
  {
  }

  lemma SnakeRemoteUrlKeep()
    ensures Camel2Separator(Some("remoteURL"), SnakeSeparator, Keep) == Some("remote_URL")
  {
    SnakeRemoteUrlKeepRuns();
    LoopChain("remote", "URL", ScanState("remote", 0), ScanState("remote_URL", 3), SnakeSeparator, Keep);
    assert "remote" + "URL" == "remoteURL";
    Camel2SeparatorLoop("remoteURL", SnakeSeparator, Keep);
  }

  lemma SnakeRemoteUrlLowerRuns()
    ensures Loop(ScanState([], 0), "remote", 0, SnakeSeparator, LowerCase) == ScanState("remote", 0)
    ensures Loop(ScanState("remote", 0), "URL", 6, SnakeSeparator, LowerCase) == ScanState("remote_url", 3)
  {
  }

  lemma SnakeRemoteUrlLower()
    ensures Camel2Separator(Some("remoteURL"), SnakeSeparator, LowerCase) == Some("remote_url")
  {
    SnakeRemoteUrlLowerRuns();
    LoopChain("remote", "URL", ScanState("remote", 0), ScanState("remote_url", 3), SnakeSeparator, LowerCase);
    assert "remote" + "URL" == "remoteURL";
    Camel2SeparatorLoop("remoteURL", SnakeSeparator, LowerCase);
  }

  lemma SnakeRandomSqlTextKeepRuns()
    ensures Loop(ScanState([], 0), "random", 0, SnakeSeparator, Keep) == ScanState("random", 0)
    ensures Loop(ScanState("random", 0), "SQL", 6, SnakeSeparator, Keep) == ScanState("random_SQL", 3)
    ensures Loop(ScanState("random_SQL", 3), "Text", 9, SnakeSeparator, Keep) == ScanState("random_SQL_Text", 0)
  {
  }

  lemma SnakeRandomSqlTextKeep()
    ensures Camel2Separator(Some("randomSQLText"), SnakeSeparator, Keep) == Some("random_SQL_Text")
  {
    SnakeRandomSqlTextKeepRuns();
    LoopChain("random", "SQL", ScanState("random", 0), ScanState("random_SQL", 3), SnakeSeparator, Keep);
    assert "random" + "SQL" == "randomSQL";
    LoopChain("randomSQL", "Text", ScanState("random_SQL", 3), ScanState("random_SQL_Text", 0), SnakeSeparator, Keep);
    assert "randomSQL" + "Text" == "randomSQLText";
    Camel2SeparatorLoop("randomSQLText", SnakeSeparator, Keep);
  }

  lemma SnakeRandomSqlTextLowerRuns()
    ensures Loop(ScanState([], 0), "random", 0, SnakeSeparator, LowerCase) == ScanState("random", 0)
    ensures Loop(ScanState("random", 0), "SQL", 6, SnakeSeparator, LowerCase) == ScanState("random_sql", 3)
    ensures Loop(ScanState("random_sql", 3), "Text", 9, SnakeSeparator, LowerCase) == ScanState("random_sql_text", 0)
  {
  }

  lemma SnakeRandomSqlTextLower()
    ensures Camel2Separator(Some("randomSQLText"), SnakeSeparator, LowerCase) == Some("random_sql_text")
  {
    SnakeRandomSqlTextLowerRuns();
    LoopChain("random", "SQL", ScanState("random", 0), ScanState("random_sql", 3), SnakeSeparator, LowerCase);
    assert "random" + "SQL" == "randomSQL";
    LoopChain("randomSQL", "Text", ScanState("random_sql", 3), ScanState("random_sql_text", 0), SnakeSeparator, LowerCase);
    assert "randomSQL" + "Text" == "randomSQLText";
    Camel2SeparatorLoop("randomSQLText", SnakeSeparator, LowerCase);
  }

  lemma SnakeOneLowerTestStringKeepRuns()
    ensures Loop(ScanState([], 0), "ONE", 0, SnakeSeparator, Keep) == ScanState("ONE", 3)
    ensures Loop(ScanState("ONE", 3), "test", 3, SnakeSeparator, Keep) == ScanState("ON_Etest", 0)
    ensures Loop(ScanState("ON_Etest", 0), "String", 7, SnakeSeparator, Keep) == ScanState("ON_Etest_String", 0)
  {
  }

  lemma SnakeOneLowerTestStringKeep()
    ensures Camel2Separator(Some("ONEtestString"), SnakeSeparator, Keep) == Some("ON_Etest_String")
  {
    SnakeOneLowerTestStringKeepRuns();
    LoopChain("ONE", "test", ScanState("ONE", 3), ScanState("ON_Etest", 0), SnakeSeparator, Keep);
    assert "ONE" + "test" == "ONEtest";
    LoopChain("ONEtest", "String", ScanState("ON_Etest", 0), ScanState("ON_Etest_String", 0), SnakeSeparator, Keep);
    assert "ONEtest" + "String" == "ONEtestString";
    Camel2SeparatorLoop("ONEtestString", SnakeSeparator, Keep);
  }

  lemma SnakeOneLowerTestStringLowerRuns()
    ensures Loop(ScanState([], 0), "ONE", 0, SnakeSeparator, LowerCase) == ScanState("one", 3)
    ensures Loop(ScanState("one", 3), "test", 3, SnakeSeparator, LowerCase) == ScanState("on_etest", 0)
    ensures Loop(ScanState("on_etest", 0), "String", 7, SnakeSeparator, LowerCase) == ScanState("on_etest_string", 0)
  {
  }

  lemma SnakeOneLowerTestStringLower()
    ensures Camel2Separator(Some("ONEtestString"), SnakeSeparator, LowerCase) == Some("on_etest_string")
  {
    SnakeOneLowerTestStringLowerRuns();
    LoopChain("ONE", "test", ScanState("one", 3), ScanState("on_etest", 0), SnakeSeparator, LowerCase);
    assert "ONE" + "test" == "ONEtest";
    LoopChain("ONEtest", "String", ScanState("on_etest", 0), ScanState("on_etest_string", 0), SnakeSeparator, LowerCase);
    assert "ONEtest" + "String" == "ONEtestString";
    Camel2SeparatorLoop("ONEtestString", SnakeSeparator, LowerCase);
  }

  lemma SnakeRemoteUrlIdKeepRun0()
    ensures Loop(ScanState([], 0), "remote", 0, SnakeSeparator, Keep) == ScanState("remote", 0)
  {
  }

  lemma SnakeRemoteUrlIdKeepRun1()
    ensures Loop(ScanState("remote", 0), "URLID", 6, SnakeSeparator, Keep) == ScanState("remote_URLID", 5)
  {
  }

  lemma SnakeRemoteUrlIdKeep()
    ensures Camel2Separator(Some("remoteURLID"), SnakeSeparator, Keep) == Some("remote_URLID")
  {
    SnakeRemoteUrlIdKeepRun0();
    SnakeRemoteUrlIdKeepRun1();
    LoopChain("remote", "URLID", ScanState("remote", 0), ScanState("remote_URLID", 5), SnakeSeparator, Keep);
    assert "remote" + "URLID" == "remoteURLID";
    Camel2SeparatorLoop("remoteURLID", SnakeSeparator, Keep);
  }

  lemma SnakeRemoteUrlIdLowerRun0()
    ensures Loop(ScanState([], 0), "remote", 0, SnakeSeparator, LowerCase) == ScanState("remote", 0)
  {
  }

  lemma SnakeRemoteUrlIdLowerRun1()
    ensures Loop(ScanState("remote", 0), "URLID", 6, SnakeSeparator, LowerCase) == ScanState("remote_urlid", 5)
  {
  }

  lemma SnakeRemoteUrlIdLower()
    ensures Camel2Separator(Some("remoteURLID"), SnakeSeparator, LowerCase) == Some("remote_urlid")
  {
    SnakeRemoteUrlIdLowerRun0();
    SnakeRemoteUrlIdLowerRun1();
    LoopChain("remote", "URLID", ScanState("remote", 0), ScanState("remote_urlid", 5), SnakeSeparator, LowerCase);
    assert "remote" + "URLID" == "remoteURLID";
    Camel2SeparatorLoop("remoteURLID", SnakeSeparator, LowerCase);
  }

  lemma SnakeOneTestStringKeepRun0()
    ensures Loop(ScanState([], 0), "ONET", 0, SnakeSeparator, Keep) == ScanState("ONET", 4)
  {
  }

  lemma SnakeOneTestStringKeepRun1()
    ensures Loop(ScanState("ONET", 4), "est", 4, SnakeSeparator, Keep) == ScanState("ONE_Test", 0)
  {
  }

  lemma SnakeOneTestStringKeepRun2()
    ensures Loop(ScanState("ONE_Test", 0), "String", 7, SnakeSeparator, Keep) == ScanState("ONE_Test_String", 0)
  {
  }

  lemma SnakeOneTestStringKeep()
    ensures Camel2Separator(Some("ONETestString"), SnakeSeparator, Keep) == Some("ONE_Test_String")
  {
    SnakeOneTestStringKeepRun0();
    SnakeOneTestStringKeepRun1();
    SnakeOneTestStringKeepRun2();
    LoopChain("ONET", "est", ScanState("ONET", 4), ScanState("ONE_Test", 0), SnakeSeparator, Keep);
    assert "ONET" + "est" == "ONETest";
    LoopChain("ONETest", "String", ScanState("ONE_Test", 0), ScanState("ONE_Test_String", 0), SnakeSeparator, Keep);
    assert "ONETest" + "String" == "ONETestString";
    Camel2SeparatorLoop("ONETestString", SnakeSeparator, Keep);
  }

  lemma SnakeOneTestStringLowerRun0()
    ensures Loop(ScanState([], 0), "ONET", 0, SnakeSeparator, LowerCase) == ScanState("onet", 4)
  {
  }

  lemma SnakeOneTestStringLowerRun1()
    ensures Loop(ScanState("onet", 4), "est", 4, SnakeSeparator, LowerCase) == ScanState("one_test", 0)
  {
  }

  lemma SnakeOneTestStringLowerRun2()
    ensures Loop(ScanState("one_test", 0), "String", 7, SnakeSeparator, LowerCase) == ScanState("one_test_string", 0)
  {
  }

  lemma SnakeOneTestStringLower()
    ensures Camel2Separator(Some("ONETestString"), SnakeSeparator, LowerCase) == Some("one_test_string")
  {
    SnakeOneTestStringLowerRun0();
    SnakeOneTestStringLowerRun1();
    SnakeOneTestStringLowerRun2();
    LoopChain("ONET", "est", ScanState("onet", 4), ScanState("one_test", 0), SnakeSeparator, LowerCase);
    assert "ONET" + "est" == "ONETest";
    LoopChain("ONETest", "String", ScanState("one_test", 0), ScanState("one_test_string", 0), SnakeSeparator, LowerCase);
    assert "ONETest" + "String" == "ONETestString";
    Camel2SeparatorLoop("ONETestString", SnakeSeparator, LowerCase);
  }

  lemma SnakeOneTestUpperStringKeepRun0()
    ensures Loop(ScanState([], 0), "one", 0, SnakeSeparator, Keep) == ScanState("one", 0)
  {
  }

  lemma SnakeOneTestUpperStringKeepRun1()
    ensures Loop(ScanState("one", 0), "Test", 3, SnakeSeparator, Keep) == ScanState("one_Test", 0)
  {
  }

  lemma SnakeOneTestUpperStringKeepRun2()
    ensures Loop(ScanState("one_Test", 0), "STRING", 7, SnakeSeparator, Keep) == ScanState("one_Test_STRING", 6)
  {
  }

  lemma SnakeOneTestUpperStringKeep()
    ensures Camel2Separator(Some("oneTestSTRING"), SnakeSeparator, Keep) == Some("one_Test_STRING")
  {
    SnakeOneTestUpperStringKeepRun0();
    SnakeOneTestUpperStringKeepRun1();
    SnakeOneTestUpperStringKeepRun2();
    LoopChain("one", "Test", ScanState("one", 0), ScanState("one_Test", 0), SnakeSeparator, Keep);
    assert "one" + "Test" == "oneTest";
    LoopChain("oneTest", "STRING", ScanState("one_Test", 0), ScanState("one_Test_STRING", 6), SnakeSeparator, Keep);
    assert "oneTest" + "STRING" == "oneTestSTRING";
    Camel2SeparatorLoop("oneTestSTRING", SnakeSeparator, Keep);
  }

  lemma SnakeOneTestUpperStringLowerRun0()
    ensures Loop(ScanState([], 0), "one", 0, SnakeSeparator, LowerCase) == ScanState("one", 0)
  {
  }

  lemma SnakeOneTestUpperStringLowerRun1()
    ensures Loop(ScanState("one", 0), "Test", 3, SnakeSeparator, LowerCase) == ScanState("one_test", 0)
  {
  }

  lemma SnakeOneTestUpperStringLowerRun2()
    ensures Loop(ScanState("one_test", 0), "STRING", 7, SnakeSeparator, LowerCase) == ScanState("one_test_string", 6)
  {
  }

  lemma SnakeOneTestUpperStringLower()
    ensures Camel2Separator(Some("oneTestSTRING"), SnakeSeparator, LowerCase) == Some("one_test_string")
  {
    SnakeOneTestUpperStringLowerRun0();
    SnakeOneTestUpperStringLowerRun1();
    SnakeOneTestUpperStringLowerRun2();
    LoopChain("one", "Test", ScanState("one", 0), ScanState("one_test", 0), SnakeSeparator, LowerCase);
    assert "one" + "Test" == "oneTest";
    LoopChain("oneTest", "STRING", ScanState("one_test", 0), ScanState("one_test_string", 6), SnakeSeparator, LowerCase);
    assert "oneTest" + "STRING" == "oneTestSTRING";
    Camel2SeparatorLoop("oneTestSTRING", SnakeSeparator, LowerCase);
  }
}
