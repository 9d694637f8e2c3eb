/** The demonstration chat (frontend/components/MockChat.tsx): a fixed
    opening conversation, a send handler that appends the user's message and
    schedules a canned reply, and the open/closed state of the panel. The
    one-second timer is left out: a scheduled reply arrives when
    `DeliverReply` is called. */
module MockChat {
  import opened Text

  datatype Role = User | Assistant

  datatype ChatMessage = ChatMessage(role: Role, content: string)

  // The texts of the opening conversation and of the canned reply.
  const FirstQuestion := "What are the main risks associated with this property?"
  const FirstAnswer := "Based on the provided documents, the main risks associated with this property are:\n\n1. Fire damage: There was a recent incident of fire damage in the server room due to faulty wiring [1].\n2. Water damage: A burst pipe affected multiple floors, indicating potential plumbing issues [1].\n3. Theft: High-value tech equipment was stolen from a secure room, suggesting security vulnerabilities [1].\n4. Structural damage: The facade suffered windstorm damage, which could be a recurring risk due to the building's location [1].\n5. Explosion risk: An incident involving a backup generator caused extensive damage to the mechanical room [1].\n6. Flooding: The property's location near a river presents a flooding risk that has affected lower levels and electrical systems in the past [2].\n\nSources:\n[1] Loss Run Report\n[2] Environmental Report"
  const SecondQuestion := "How does the building's construction affect its insurability?"
  const SecondAnswer := "The building's construction plays a significant role in its insurability. Here's how it affects the risk profile:\n\n1. Modern construction: Built in 2020, the Empire Tech Tower uses contemporary building techniques and materials, which generally improve its insurability [1].\n2. Materials: The building is made of steel and glass with reinforced concrete foundations. These materials are typically fire-resistant and durable, which is favorable for insurance [2].\n3. Structural integrity: Despite the modern construction, there have been incidents of fire and windstorm damage, which may indicate some vulnerabilities in the structure [2].\n4. Height: As a 25-story building, it may have additional risks associated with high-rise structures, such as more complex evacuation procedures and potential for greater damage in case of a fire [1].\n5. Tech infrastructure: The building houses high-value equipment and data servers, which may require specialized insurance coverage [3].\n\nOverall, while the modern construction and materials are positive factors, the reported incidents and the building's specific use may require careful consideration in the underwriting process.\n\nSources:\n[1] Property Overview\n[2] Inspection Report\n[3] Lease Agreement"
  const Apology := "I apologize, but I don't have enough context to provide a specific answer to your question. Could you please provide more details or ask about something mentioned in the previous conversation? I'd be happy to assist you based on the information we have discussed."

  /** `mockConversation` */
  const MockConversation := [
    ChatMessage(User, FirstQuestion),
    ChatMessage(Assistant, FirstAnswer),
    ChatMessage(User, SecondQuestion),
    ChatMessage(Assistant, SecondAnswer)
  ]

  /** The opening conversation has four messages that alternate between the
      user and the assistant, starting with the user. */
  lemma MockConversationAlternates()
    ensures |MockConversation| == 4
    ensures forall i :: 0 <= i < |MockConversation| ==>
      MockConversation[i].role == if i % 2 == 0 then User else Assistant
  {
  }

  /** Number of messages with the given role. */
  function Count(messages: seq<ChatMessage>, role: Role): nat
  {
    if messages == [] then 0
    else Count(messages[..|messages| - 1], role) + (if messages[|messages| - 1].role == role then 1 else 0)
  }

  lemma CountSnoc(messages: seq<ChatMessage>, m: ChatMessage, role: Role)
    ensures Count(messages + [m], role) == Count(messages, role) + (if m.role == role then 1 else 0)
  {
    assert (messages + [m])[..|messages|] == messages;
  }

  /** The component's state. `pendingReplies` counts the replies scheduled
      with `setTimeout` that have not arrived yet; `opening` and `reply` are
      the fixed texts, set once by the constructor. */
  class Chat {
    const opening: seq<ChatMessage>
    const reply: string
    var isOpen: bool
    var messages: seq<ChatMessage>
    var newMessage: string
    var pendingReplies: nat

    /** The opening conversation is kept, every later assistant message is
        the canned reply, and every user message sent has been answered or
        has its reply pending. */
    predicate Valid()
      reads this
    {
      && |messages| >= |opening|
      && messages[..|opening|] == opening
      && Count(messages[|opening|..], User) == Count(messages[|opening|..], Assistant) + pendingReplies
      && forall i :: |opening| <= i < |messages| && messages[i].role == Assistant ==> messages[i].content == reply
    }

    constructor ()
      ensures Valid()
      ensures opening == MockConversation && reply == Apology
      ensures !isOpen && messages == opening && newMessage == "" && pendingReplies == 0
    {
      opening := MockConversation;
      reply := Apology;
      isOpen := false;
      messages := MockConversation;
      newMessage := "";
      pendingReplies := 0;
      new;
      assert messages[|opening|..] == [];
    }

    /** The input's `onChange`. */
    method Type(text: string)
      modifies this
      requires Valid()
      ensures Valid()
      ensures newMessage == text
      ensures isOpen == old(isOpen) && messages == old(messages) && pendingReplies == old(pendingReplies)
    {
      newMessage := text;
    }

    /** `handleSendMessage`: input that trims to nothing changes nothing;
        otherwise the untrimmed input is appended as a user message, the
        input is cleared and a reply is scheduled. */
    method SendMessage()
      modifies this
      requires Valid()
      ensures Valid()
      ensures isOpen == old(isOpen)
      ensures Trim(old(newMessage)) == "" ==>
        messages == old(messages) && newMessage == old(newMessage) && pendingReplies == old(pendingReplies)
      ensures Trim(old(newMessage)) != "" ==>
        && messages == old(messages) + [ChatMessage(User, old(newMessage))]
        && newMessage == ""
        && pendingReplies == old(pendingReplies) + 1
    {
      if Trim(newMessage) != "" {
        ghost var before := messages;
        messages := messages + [ChatMessage(User, newMessage)];
        newMessage := "";
        pendingReplies := pendingReplies + 1;
        var n := |opening|;
        assert messages[n..] == before[n..] + [ChatMessage(User, old(newMessage))];
        CountSnoc(before[n..], ChatMessage(User, old(newMessage)), User);
        CountSnoc(before[n..], ChatMessage(User, old(newMessage)), Assistant);
      }
    }

    /** The `setTimeout` callback: the canned reply is appended to the list as
        it is when the timer fires. */
    method DeliverReply()
      modifies this
      requires Valid() && pendingReplies > 0
      ensures Valid()
      ensures messages == old(messages) + [ChatMessage(Assistant, reply)]
      ensures pendingReplies == old(pendingReplies) - 1
      ensures isOpen == old(isOpen) && newMessage == old(newMessage)
    {
      ghost var before := messages;
      messages := messages + [ChatMessage(Assistant, reply)];
      pendingReplies := pendingReplies - 1;
      var n := |opening|;
      assert messages[n..] == before[n..] + [ChatMessage(Assistant, reply)];
      CountSnoc(before[n..], ChatMessage(Assistant, reply), User);
      CountSnoc(before[n..], ChatMessage(Assistant, reply), Assistant);
    }

    /** The effect on `isVisible`: becoming visible opens the panel; becoming
        hidden leaves it as it is. */
    method VisibilityChanged(isVisible: bool)
      modifies this
      requires Valid()
      ensures Valid()
      ensures isOpen == (old(isOpen) || isVisible)
      ensures messages == old(messages) && newMessage == old(newMessage) && pendingReplies == old(pendingReplies)
    {
      if isVisible {
        isOpen := true;
      }
    }

    /** A click on the header. */
    method ToggleOpen()
      modifies this
      requires Valid()
      ensures Valid()
      ensures isOpen == !old(isOpen)
      ensures messages == old(messages) && newMessage == old(newMessage) && pendingReplies == old(pendingReplies)
    {
      isOpen := !isOpen;
    }
  }
}
