/**
 * The conversation of the chart bot (Starbutts.py): button_handler and
 * handle_message act on the per-user dictionary context.user_data, whose
 * entry 'awaiting_data' says what the next text message is taken to be.
 * The replies and the analysis routines they start are recorded as
 * abstract actions; what those routines do (geocoding, ephemeris, the
 * language model, PDF rendering) is not part of this model.
 */
module Conversation {
  import opened Wrappers
  import opened Text
  import opened Intake

  /** The live values of 'awaiting_data'. */
  datatype Mode = Individual | Financial | Person1 | Person2 | Dream

  /** The fixed texts the bot sends, by purpose. */
  datatype Reply =
    | ChartFormatPrompt      // "Введите данные в формате: ..." (create_chart)
    | FirstPersonPrompt      // "Введите данные первого человека ..."
    | FinancialFormatPrompt  // "Введите данные в формате: ..." (financial_analysis)
    | DreamPrompt            // "Введите описание вашего сна ..."
    | SecondPersonPrompt     // "Введите данные второго человека ..."
    | MainMenu               // start: the inline keyboard with the four actions
    | RestartHint            // start: the reply keyboard with the "Старт" button
    | FormatError            // "Ошибка! Формат ввода: ..."
    | PairFormatError        // "Ошибка! Проверьте формат ввода данных для обоих людей."
    | UnknownRequest         // "Непонятный запрос. ..."

  /** A side effect of one event, in the order the handlers issue them. */
  datatype Action =
    | AnswerQuery                                 // the callback query is acknowledged
    | Send(reply: Reply)
    | IndividualChart(person: Record)             // calculate_individual_chart past its parse
    | FinancialAnalysis(person: Record)           // calculate_financial_analysis
    | Compatibility(first: Record, second: Record) // calculate_compatibility past its parse
    | CompatibilityFailed                         // its KeyError, caught and reported
    | InterpretDream(description: string)         // interpret_dream, on the raw message text

  const StartCommand: string := "старт"

  /** The message as handle_message compares it: stripped, then lowered. */
  function UserInput(text: string): (input: string)
    ensures Trimmed(input) && |input| == |Strip(text)|
    ensures forall k :: 0 <= k < |input| ==> !IsUpper(input[k])
  {
    LowerTrimmed(Strip(text));
    LowerNoCapitals(Strip(text));
    Lower(Strip(text))
  }

  /** The button of the reply keyboard, "Старт", is read as the restart command. */
  lemma StartButtonRestarts()
    ensures UserInput("Старт") == StartCommand
  {
    var button := "Старт";
    assert [] + button + [] == button;
    StripSurrounded([], button, []);
    assert Lower(button) == StartCommand;
  }

  /** calculate_individual_chart: parses the raw message text, not the
      lowered input; on four fields it goes on to the chart. */
  function IndividualChartAction(text: string): (a: Action)
    ensures a.IndividualChart? <==> Count(text, ',') == 3
    ensures a.IndividualChart? ==> a.person == ParseRecord(text).value && Clean(a.person)
    ensures !a.IndividualChart? ==> a == Send(FormatError)
  {
    match ParseRecord(text)
    case Ok(person) => IndividualChart(person)
    case Err(_) => Send(FormatError)
  }

  /** The financial branch of handle_message: parses the lowered input. */
  function FinancialAction(input: string): (a: Action)
    ensures a.FinancialAnalysis? <==> Count(input, ',') == 3
    ensures a.FinancialAnalysis? ==> a.person == ParseRecord(input).value && Clean(a.person)
    ensures !a.FinancialAnalysis? ==> a == Send(FormatError)
  {
    match ParseRecord(input)
    case Ok(person) => FinancialAnalysis(person)
    case Err(_) => Send(FormatError)
  }

  /** calculate_compatibility: reads both stored inputs (a missing first one
      is a KeyError, caught) and needs four fields in each. */
  function CompatibilityAction(first: Option<string>, second: string): (a: Action)
    ensures first.None? <==> a == CompatibilityFailed
    ensures a.Compatibility? <==> first.Some? && Count(first.value, ',') == 3 && Count(second, ',') == 3
    ensures a.Compatibility? ==> a.first == ParseRecord(first.value).value && a.second == ParseRecord(second).value
    ensures first.Some? && !a.Compatibility? ==> a == Send(PairFormatError)
  {
    match first
    case None => CompatibilityFailed
    case Some(input) =>
      match (ParseRecord(input), ParseRecord(second))
      case (Ok(p1), Ok(p2)) => Compatibility(p1, p2)
      case _ => Send(PairFormatError)
  }

  /** One user's context.user_data and the actions issued on it so far. */
  class Session {
    /** The awaiting_data entry: an absent entry and None read alike. */
    var awaitingData: Option<Mode>
    /** The person1_data and person2_data entries, absent until stored. */
    var person1Data: Option<string>
    var person2Data: Option<string>
    /** The replies and routines started so far, in order. */
    var log: seq<Action>

    /** The compatibility step can always find the first person's data. */
    ghost predicate Valid()
      reads this
    {
      awaitingData == Some(Person2) ==> person1Data.Some?
    }

    /** A fresh user: user_data is empty. */
    constructor ()
      ensures Valid()
      ensures awaitingData == None && person1Data == None && person2Data == None && log == []
    {
      awaitingData := None;
      person1Data := None;
      person2Data := None;
      log := [];
    }

    /** start: the main menu and the restart keyboard; user_data is untouched. */
    method Start()
      modifies this`log
      ensures log == old(log) + [Send(MainMenu), Send(RestartHint)]
    {
      log := log + [Send(MainMenu), Send(RestartHint)];
    }

    /** button_handler: answers the query, then each of the four callbacks
        sends its prompt and sets 'awaiting_data'; any other callback data
        changes nothing. */
    method ButtonHandler(data: string)
      requires Valid()
      modifies this
      ensures Valid()
      ensures person1Data == old(person1Data) && person2Data == old(person2Data)
      ensures data == "create_chart" ==>
        awaitingData == Some(Individual) && log == old(log) + [AnswerQuery, Send(ChartFormatPrompt)]
      ensures data == "calculate_compatibility" ==>
        awaitingData == Some(Person1) && log == old(log) + [AnswerQuery, Send(FirstPersonPrompt)]
      ensures data == "financial_analysis" ==>
        awaitingData == Some(Financial) && log == old(log) + [AnswerQuery, Send(FinancialFormatPrompt)]
      ensures data == "dream_interpretation" ==>
        awaitingData == Some(Dream) && log == old(log) + [AnswerQuery, Send(DreamPrompt)]
      ensures data !in {"create_chart", "calculate_compatibility", "financial_analysis", "dream_interpretation"} ==>
        awaitingData == old(awaitingData) && log == old(log) + [AnswerQuery]
    {
      log := log + [AnswerQuery];
      if data == "create_chart" {
        log := log + [Send(ChartFormatPrompt)];
        awaitingData := Some(Individual);
      } else if data == "calculate_compatibility" {
        log := log + [Send(FirstPersonPrompt)];
        awaitingData := Some(Person1);
      } else if data == "financial_analysis" {
        log := log + [Send(FinancialFormatPrompt)];
        awaitingData := Some(Financial);
      } else if data == "dream_interpretation" {
        log := log + [Send(DreamPrompt)];
        awaitingData := Some(Dream);
      }
    }

    /** handle_message: "старт" restarts the menu whatever the state;
        otherwise the message is taken as 'awaiting_data' says. */
    method HandleMessage(text: string)
      requires Valid()
      modifies this
      ensures Valid()
      ensures |old(log)| < |log| && CompatibilityFailed !in log[|old(log)|..]
      ensures UserInput(text) == StartCommand ==>
        awaitingData == old(awaitingData) && person1Data == old(person1Data) && person2Data == old(person2Data)
        && log == old(log) + [Send(MainMenu), Send(RestartHint)]
      ensures UserInput(text) != StartCommand && old(awaitingData) == Some(Individual) ==>
        awaitingData == old(awaitingData) && person1Data == old(person1Data) && person2Data == old(person2Data)
        && log == old(log) + [IndividualChartAction(text)]
      ensures UserInput(text) != StartCommand && old(awaitingData) == Some(Financial) ==>
        awaitingData == old(awaitingData) && person1Data == old(person1Data) && person2Data == old(person2Data)
        && log == old(log) + [FinancialAction(UserInput(text))]
      ensures UserInput(text) != StartCommand && old(awaitingData) == Some(Person1) ==>
        awaitingData == Some(Person2) && person1Data == Some(UserInput(text)) && person2Data == old(person2Data)
        && log == old(log) + [Send(SecondPersonPrompt)]
      ensures UserInput(text) != StartCommand && old(awaitingData) == Some(Person2) ==>
        awaitingData == None && person1Data == old(person1Data) && person2Data == Some(UserInput(text))
        && log == old(log) + [CompatibilityAction(old(person1Data), UserInput(text))]
      ensures UserInput(text) != StartCommand && old(awaitingData) == Some(Dream) ==>
        awaitingData == None && person1Data == old(person1Data) && person2Data == old(person2Data)
        && log == old(log) + [InterpretDream(text)]
      ensures UserInput(text) != StartCommand && old(awaitingData) == None ==>
        awaitingData == old(awaitingData) && person1Data == old(person1Data) && person2Data == old(person2Data)
        && log == old(log) + [Send(UnknownRequest)]
    {
      var input := UserInput(text);
      if input == StartCommand {
        Start();
        return;
      }
      match awaitingData
      case Some(Individual) =>
        log := log + [IndividualChartAction(text)];
      case Some(Financial) =>
        log := log + [FinancialAction(input)];
      case Some(Person1) =>
        person1Data := Some(input);
        log := log + [Send(SecondPersonPrompt)];
        awaitingData := Some(Person2);
      case Some(Person2) =>
        person2Data := Some(input);
        log := log + [CompatibilityAction(person1Data, input)];
        awaitingData := None;
      case Some(Dream) =>
        log := log + [InterpretDream(text)];
        awaitingData := None;
      case None =>
        log := log + [Send(UnknownRequest)];
    }
  }

  /** The compatibility dialogue: the button, then the two people's data.
      Both inputs are stored lowered and stripped, the state ends reset, and
      the first person's data is always found. */
  method CompatibilityFlow(s: Session, first: string, second: string)
    requires s.Valid()
    requires UserInput(first) != StartCommand && UserInput(second) != StartCommand
    modifies s
    ensures s.Valid()
    ensures s.awaitingData == None
    ensures s.person1Data == Some(UserInput(first)) && s.person2Data == Some(UserInput(second))
    ensures s.log == old(s.log) + [AnswerQuery, Send(FirstPersonPrompt), Send(SecondPersonPrompt),
                                   CompatibilityAction(Some(UserInput(first)), UserInput(second))]
    ensures s.log[|s.log| - 1] != CompatibilityFailed
  {
    ghost var log0 := s.log;
    s.ButtonHandler("calculate_compatibility");
    assert s.awaitingData == Some(Person1);
    ghost var log1 := s.log;
    assert log1 == log0 + [AnswerQuery, Send(FirstPersonPrompt)];
    s.HandleMessage(first);
    assert s.awaitingData == Some(Person2) && s.person1Data == Some(UserInput(first));
    ghost var log2 := s.log;
    assert log2 == log1 + [Send(SecondPersonPrompt)];
    ghost var stored := s.person1Data;
    s.HandleMessage(second);
    assert s.person1Data == stored && s.person2Data == Some(UserInput(second));
    assert s.log == log2 + [CompatibilityAction(Some(UserInput(first)), UserInput(second))];
    LogOfFlow(log0, AnswerQuery, Send(FirstPersonPrompt), Send(SecondPersonPrompt),
              CompatibilityAction(Some(UserInput(first)), UserInput(second)));
  }

  lemma LogOfFlow<T>(log: seq<T>, a: T, b: T, c: T, d: T)
    ensures ((log + [a, b]) + [c]) + [d] == log + [a, b, c, d]
  {
  }
}
