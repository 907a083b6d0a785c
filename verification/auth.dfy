/** The middleware that lets only administrators reach the bot's handlers. */
module Auth {
  /** The two kinds of update the middleware is installed on. */
  datatype Event = Message(userId: int, text: string) | CallbackQuery(userId: int, data: string)

  /** The answer a refused user gets: a chat reply for a message, an alert for
      a button press. */
  datatype Refusal = Refusal(text: string, showAlert: bool)

  datatype Outcome<R> = Handled(result: R) | Denied(reply: Refusal)

  const NoAccess := "❌ У вас нет доступа к этому боту"

  /** The negation of `not self.admin_ids or user_id not in self.admin_ids`:
      an empty list admits nobody. */
  predicate Authorized(adminIds: seq<int>, userId: int) {
    |adminIds| > 0 && userId in adminIds
  }

  /** `AuthMiddleware.__call__`: the handler runs iff the sender is an
      administrator; otherwise the event is answered with the refusal and the
      handler is not called. */
  function Dispatch<R>(adminIds: seq<int>, event: Event, handler: Event -> R): (r: Outcome<R>)
    ensures r.Handled? <==> event.userId in adminIds
    ensures r.Handled? ==> r.result == handler(event)
    ensures r.Denied? ==> r.reply == Refusal(NoAccess, event.CallbackQuery?)
  {
    if !Authorized(adminIds, event.userId) then Denied(Refusal(NoAccess, event.CallbackQuery?))
    else Handled(handler(event))
  }

  /** The decision depends only on the sender's id, never on what was sent. */
  lemma DecisionOnlyByUser<R>(adminIds: seq<int>, e1: Event, e2: Event, handler: Event -> R)
    requires e1.userId == e2.userId
    ensures Dispatch(adminIds, e1, handler).Handled? == Dispatch(adminIds, e2, handler).Handled?
  {
  }
}
