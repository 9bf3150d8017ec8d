/**
 * A channel row as the table holds it, and the pure decisions the table
 * makes about one row: its status tag, its response-time tag, whether the
 * row is greyed out, which button toggles it, and the request an inline
 * action sends.
 */
module ChannelModel {
  import opened Wrappers

  /** The fields of a channel row that the table's logic reads or writes. */
  datatype Channel = Channel(
    id: int,
    key: string,
    status: int,
    priority: int,
    weight: int,
    responseTimeMs: int)

  const StatusEnabled := 1
  const StatusManuallyDisabled := 2
  const StatusAutoDisabled := 3

  datatype Colour = Green | Lime | Yellow | Red | Grey

  /** Caption of the status tag: enabled, disabled, or unknown status. */
  datatype StatusText = EnabledText | DisabledText | UnknownText

  /** The hover text of a disabled tag: who disabled the channel. */
  datatype DisabledBy = ByAdmin | ByProgram

  datatype StatusTag = StatusTag(colour: Colour, text: StatusText, hint: Option<DisabledBy>)

  /** `renderStatus` */
  function RenderStatus(status: int): (t: StatusTag)
  {
    if status == StatusEnabled then StatusTag(Green, EnabledText, None)
    else if status == StatusManuallyDisabled then StatusTag(Red, DisabledText, Some(ByAdmin))
    else if status == StatusAutoDisabled then StatusTag(Yellow, DisabledText, Some(ByProgram))
    else StatusTag(Grey, UnknownText, None)
  }

  /** The tag shown for a response time, without the seconds text. */
  datatype TimeTag = Untested | TimeColour(colour: Colour)

  /** `renderResponseTime`, on a response time in whole milliseconds. */
  function RenderResponseTime(ms: int): (t: TimeTag)
  {
    if ms == 0 then Untested
    else if ms <= 1000 then TimeColour(Green)
    else if ms <= 3000 then TimeColour(Lime)
    else if ms <= 5000 then TimeColour(Yellow)
    else TimeColour(Red)
  }

  /** How slow a tag says the channel is: 0 (green) up to 3 (red). */
  function Slowness(t: TimeTag): nat
    requires t.TimeColour?
  {
    match t.colour
    case Green => 0
    case Lime => 1
    case Yellow => 2
    case _ => 3
  }

  /** The row properties `handleRow` returns. */
  datatype RowStyle = Plain | GreyedOut

  /** `handleRow` */
  function HandleRow(record: Channel): RowStyle
  {
    if record.status != StatusEnabled then GreyedOut else Plain
  }

  /** The inline actions `manageChannel` accepts. */
  datatype Action = Delete | Enable | Disable | SetPriority | SetWeight

  /** The field a PUT request changes, next to the channel id. */
  datatype Change = NewStatus(status: int) | NewPriority(priority: int) | NewWeight(weight: int)

  datatype Request = DeleteRequest(id: int) | UpdateRequest(id: int, change: Change)

  /**
   * The request `manageChannel` sends. `value` is the number typed into an
   * input field, `None` when the field was cleared (the empty string), in
   * which case no request is sent.
   */
  function BuildRequest(id: int, action: Action, value: Option<int>): (r: Option<Request>)
  {
    match action
    case Delete => Some(DeleteRequest(id))
    case Enable => Some(UpdateRequest(id, NewStatus(StatusEnabled)))
    case Disable => Some(UpdateRequest(id, NewStatus(StatusManuallyDisabled)))
    case SetPriority =>
      if value.None? then None else Some(UpdateRequest(id, NewPriority(value.value)))
    case SetWeight =>
      if value.None? then None
      else Some(UpdateRequest(id, NewWeight(if value.value < 0 then 0 else value.value)))
  }

  /** The button in a row's action column: disable for an enabled row, enable otherwise. */
  function ToggleAction(status: int): Action
  {
    if status == StatusEnabled then Disable else Enable
  }

  /** A zero response time means the channel was never tested, and only zero does. */
  lemma UntestedOnlyAtZero(ms: int)
    ensures RenderResponseTime(ms) == Untested <==> ms == 0
  {
  }

  /** Each colour covers exactly one interval of response times. */
  lemma ResponseTimeBuckets(ms: int)
    requires ms != 0
    ensures RenderResponseTime(ms) == TimeColour(Green) <==> ms <= 1000
    ensures RenderResponseTime(ms) == TimeColour(Lime) <==> 1000 < ms <= 3000
    ensures RenderResponseTime(ms) == TimeColour(Yellow) <==> 3000 < ms <= 5000
    ensures RenderResponseTime(ms) == TimeColour(Red) <==> 5000 < ms
  {
  }

  /** A slower tested channel never gets a faster-looking tag. */
  lemma ResponseTimeMonotone(a: int, b: int)
    requires a != 0 && b != 0 && a <= b
    ensures Slowness(RenderResponseTime(a)) <= Slowness(RenderResponseTime(b))
  {
  }

  /**
   * The status tag, the row shading and the toggle button agree: a row is
   * shown green, unshaded and with a disable button exactly when its status
   * is enabled.
   */
  lemma StatusViewsAgree(record: Channel)
    ensures RenderStatus(record.status).colour == Green <==> record.status == StatusEnabled
    ensures HandleRow(record) == GreyedOut <==> RenderStatus(record.status).text != EnabledText
    ensures ToggleAction(record.status) == Disable <==> HandleRow(record) == Plain
  {
  }

  /** Only statuses 2 and 3 read as disabled, each with its own hint; every other code is unknown. */
  lemma StatusTagCases(status: int)
    ensures RenderStatus(status).text == DisabledText <==> status == 2 || status == 3
    ensures RenderStatus(status).hint == Some(ByAdmin) <==> status == 2
    ensures RenderStatus(status).hint == Some(ByProgram) <==> status == 3
    ensures RenderStatus(status).text == UnknownText <==> !(1 <= status <= 3)
  {
  }

  /**
   * The toggle button always sends a status change, and the status it asks
   * for flips the row's shading: an enabled row asks to be disabled by hand,
   * any other row asks to be enabled.
   */
  lemma ToggleFlipsShading(record: Channel, value: Option<int>)
    ensures var r := BuildRequest(record.id, ToggleAction(record.status), value);
      && r.Some? && r.value.UpdateRequest? && r.value.id == record.id && r.value.change.NewStatus?
      && (HandleRow(record.(status := r.value.change.status)) == GreyedOut <==> HandleRow(record) == Plain)
  {
  }

  /**
   * Which inline actions send nothing: only a priority or weight change whose
   * input was cleared. Every request carries the row's id, and a weight is
   * never sent negative.
   */
  lemma RequestShape(id: int, action: Action, value: Option<int>)
    ensures BuildRequest(id, action, value).None? <==> (action == SetPriority || action == SetWeight) && value.None?
    ensures BuildRequest(id, action, value).Some? ==> BuildRequest(id, action, value).value.id == id
    ensures BuildRequest(id, action, value).Some? && BuildRequest(id, action, value).value.UpdateRequest? &&
            BuildRequest(id, action, value).value.change.NewWeight? ==>
              BuildRequest(id, action, value).value.change.weight >= 0
  {
  }

  /**
   * What each action sends: a delete by id, status 1 to enable, status 2 to
   * disable, a typed priority as it is, a typed weight as it is unless it is
   * negative, in which case 0.
   */
  lemma RequestValues(id: int, action: Action, value: Option<int>)
    ensures action == Delete ==> BuildRequest(id, action, value) == Some(DeleteRequest(id))
    ensures action == Enable ==> BuildRequest(id, action, value) == Some(UpdateRequest(id, NewStatus(1)))
    ensures action == Disable ==> BuildRequest(id, action, value) == Some(UpdateRequest(id, NewStatus(2)))
    ensures action == SetPriority && value.Some? ==>
      BuildRequest(id, action, value) == Some(UpdateRequest(id, NewPriority(value.value)))
    ensures action == SetWeight && value.Some? && value.value >= 0 ==>
      BuildRequest(id, action, value) == Some(UpdateRequest(id, NewWeight(value.value)))
    ensures action == SetWeight && value.Some? && value.value < 0 ==>
      BuildRequest(id, action, value) == Some(UpdateRequest(id, NewWeight(0)))
  {
  }
}
