/**
 * `update_bot_status` (main.py): every minute the bot's presence is set to
 * the player counts reported by the backend, or to one of four fixed labels
 * that say which kind of failure prevented reading them.
 */
module BotStatus {

  import opened Base
  import opened Probes
  import Text

  const ServerError := "Server Error"
  const ConnectionError := "Connection Error"
  const DataError := "Data Error"
  const UnknownError := "Unknown Error"

  const ErrorLabels := {ServerError, ConnectionError, DataError, UnknownError}

  /** The probe reached the backend, got a 2xx answer and both counts. */
  predicate HasCounts(p: Probe) {
    p.Responded? && IsSuccess(p.code) && p.body.Counts?
  }

  /** The presence text `f"{active}/{total} players"`. */
  function CountsLabel(active: int, total: int): string {
    Text.IntToString(active) + "/" + Text.IntToString(total) + " players"
  }

  /**
   * The presence label chosen for a probe. `raise_for_status` rejects any
   * non-2xx answer before the body is looked at; a blank body raises the
   * explicit ValueError and a non-JSON body raises a JSONDecodeError (also a
   * ValueError); a missing key falls through to the generic handler.
   */
  function PresenceLabel(p: Probe): (presence: string)
    ensures presence in ErrorLabels <==> !HasCounts(p)
    ensures HasCounts(p) ==> ReadCounts(presence) == Some((p.body.active, p.body.total))
    ensures p.RequestFailed? ==> presence == ConnectionError
    ensures p.Responded? && !IsSuccess(p.code) ==> presence == ServerError
    ensures p.Responded? && IsSuccess(p.code) && (p.body.Blank? || p.body.NotJson?) ==> presence == DataError
    ensures p.Responded? && IsSuccess(p.code) && p.body.NoCounts? ==> presence == UnknownError
  {
    match p
    case RequestFailed => ConnectionError
    case Responded(code, body) =>
      if !IsSuccess(code) then ServerError
      else
        match body
        case Blank => DataError
        case NotJson => DataError
        case NoCounts => UnknownError
        case Counts(active, total) =>
          CountsReadBack(active, total);
          CountsLabel(active, total)
  }

  /** Reads the two counts back out of a presence label, if it is one. */
  function ReadCounts(presence: string): Option<(int, int)> {
    match Text.Field(presence, '/')
    case None => None
    case Some((a, rest)) =>
      match Text.Field(rest, ' ')
      case None => None
      case Some((t, tail)) =>
        if tail == "players" && Text.IsIntNumeral(a) && Text.IsIntNumeral(t)
        then Some((Text.ParseInt(a), Text.ParseInt(t)))
        else None
  }

  /** A counts label is never one of the error labels, and it gives back both counts. */
  lemma CountsReadBack(active: int, total: int)
    ensures CountsLabel(active, total) !in ErrorLabels
    ensures ReadCounts(CountsLabel(active, total)) == Some((active, total))
  {
    var a, t := Text.IntToString(active), Text.IntToString(total);
    var tail := t + [' '] + "players";
    var text := CountsLabel(active, total);
    assert text == a + ['/'] + tail;
    NotAnErrorLabel(text);
    Text.FieldAfterNumeral(a, '/', tail);
    Text.FieldAfterNumeral(t, ' ', "players");
    Text.IntRoundTrip(active);
    Text.IntRoundTrip(total);
  }

  /** Every error label starts with a letter. */
  lemma NotAnErrorLabel(text: string)
    requires text != [] && (text[0] == '-' || Text.IsDigit(text[0]))
    ensures text !in ErrorLabels
  {
  }
}
