/** `AmazonEmailService::getEmailTemplate`: the template an order is sent
    with. Only the seller's first ASIN template for the order's ASIN is
    looked at; its own text wins when both subject and content are truthy,
    then the template it references by id (looked up among ALL sellers'
    templates), then the seller's first default template, then the seller's
    first template of any kind, then none. */
module Templates {
  import opened Common
  import opened ServiceModel

  /** The subject and content handed on to placeholder substitution. */
  datatype TemplateText = TemplateText(subject: string, content: string)

  function OwnAsinTemplate(userId: nat, asin: string): AsinTemplate -> bool {
    (t: AsinTemplate) => t.userId == userId && t.asin == asin
  }

  function WithId(id: nat): EmailTemplate -> bool {
    (t: EmailTemplate) => t.id == id
  }

  function OwnDefault(userId: nat): EmailTemplate -> bool {
    (t: EmailTemplate) => t.userId == userId && t.isDefault
  }

  function OwnedBy(userId: nat): EmailTemplate -> bool {
    (t: EmailTemplate) => t.userId == userId
  }

  function AsinText(t: AsinTemplate): TemplateText {
    TemplateText(t.subject, t.content)
  }

  function TextOf(t: EmailTemplate): TemplateText {
    TemplateText(t.subject, t.content)
  }

  /** The ASIN template carries usable text of its own. */
  predicate HasOwnText(t: AsinTemplate) {
    Truthy(t.subject) && Truthy(t.content)
  }

  /** The ASIN template names another template: its `template_id` is set and
      truthy, so a stored 0 counts as no reference at all. */
  predicate Refers(t: AsinTemplate) {
    t.templateId.Some? && t.templateId.value != 0
  }

  /** The ASIN step decides the result: the first ASIN template has its own
      text, or references a template id that exists. */
  ghost predicate AsinStepHits(ats: seq<AsinTemplate>, ets: seq<EmailTemplate>, userId: nat, asin: string) {
    exists i :: IsFirst(ats, OwnAsinTemplate(userId, asin), i) &&
      (HasOwnText(ats[i]) ||
       (Refers(ats[i]) && exists k :: 0 <= k < |ets| && ets[k].id == ats[i].templateId.value))
  }

  /** The referenced template, when the ASIN template names an id that exists. */
  function Referenced(t: AsinTemplate, ets: seq<EmailTemplate>): Option<EmailTemplate> {
    if Refers(t) then FirstOf(ets, WithId(t.templateId.value)) else None
  }

  function ResolveTemplate(userId: nat, asin: string, ats: seq<AsinTemplate>, ets: seq<EmailTemplate>): (r: Option<TemplateText>)
    // 1. the first ASIN template's own text
    ensures forall i :: IsFirst(ats, OwnAsinTemplate(userId, asin), i) && HasOwnText(ats[i]) ==>
      r == Some(AsinText(ats[i]))
    // 2. the template it references, whoever owns it
    ensures forall i, k ::
      (IsFirst(ats, OwnAsinTemplate(userId, asin), i) && !HasOwnText(ats[i]) &&
       Refers(ats[i]) && IsFirst(ets, WithId(ats[i].templateId.value), k)) ==>
      r == Some(TextOf(ets[k]))
    // 3. the seller's first default template
    ensures forall k :: !AsinStepHits(ats, ets, userId, asin) && IsFirst(ets, OwnDefault(userId), k) ==>
      r == Some(TextOf(ets[k]))
    // 4. the seller's first template
    ensures forall k ::
      (!AsinStepHits(ats, ets, userId, asin) &&
       (forall j :: 0 <= j < |ets| ==> !OwnDefault(userId)(ets[j])) &&
       IsFirst(ets, OwnedBy(userId), k)) ==>
      r == Some(TextOf(ets[k]))
    // 5. none
    ensures r.None? <==> !AsinStepHits(ats, ets, userId, asin) && forall j :: 0 <= j < |ets| ==> ets[j].userId != userId
  {
    var fromAsin :=
      match FirstOf(ats, OwnAsinTemplate(userId, asin))
      case None => None
      case Some(t) =>
        if HasOwnText(t) then Some(AsinText(t))
        else match Referenced(t, ets)
          case Some(e) => Some(TextOf(e))
          case None => None;
    if fromAsin.Some? then fromAsin
    else match FirstOf(ets, OwnDefault(userId))
      case Some(e) => Some(TextOf(e))
      case None =>
        match FirstOf(ets, OwnedBy(userId))
        case Some(e) => Some(TextOf(e))
        case None => None
  }

  /** The reference is resolved across sellers: seller 1's ASIN template
      that names template 7, owned by seller 2, is sent with seller 2's text. */
  lemma ReferenceCrossesSellers()
    ensures
      var ats := [AsinTemplate(1, 1, "B08X", "", "", Some(7))];
      var ets := [EmailTemplate(7, 2, "other seller", "their text", false),
                  EmailTemplate(8, 1, "own", "own text", true)];
      ResolveTemplate(1, "B08X", ats, ets) == Some(TemplateText("other seller", "their text"))
  {
    var ats := [AsinTemplate(1, 1, "B08X", "", "", Some(7))];
    var ets := [EmailTemplate(7, 2, "other seller", "their text", false),
                EmailTemplate(8, 1, "own", "own text", true)];
    assert IsFirst(ats, OwnAsinTemplate(1, "B08X"), 0);
    assert IsFirst(ets, WithId(7), 0);
  }

  /** Precedence on one seller holding every kind of template: each step
      wins over all later ones, and removing it hands the choice to the next. */
  lemma PrecedenceLadder()
    ensures
      var direct := AsinTemplate(1, 1, "A1", "asin subject", "asin body", Some(10));
      var pointing := AsinTemplate(1, 1, "A1", "", "", Some(10));
      var referenced := EmailTemplate(10, 1, "ref subject", "ref body", false);
      var default := EmailTemplate(11, 1, "default subject", "default body", true);
      var plain := EmailTemplate(12, 1, "plain subject", "plain body", false);
      && ResolveTemplate(1, "A1", [direct], [plain, referenced, default]) == Some(AsinText(direct))
      && ResolveTemplate(1, "A1", [pointing], [plain, referenced, default]) == Some(TextOf(referenced))
      && ResolveTemplate(1, "A1", [pointing], [plain, default]) == Some(TextOf(default))
      && ResolveTemplate(1, "A1", [], [plain, referenced]) == Some(TextOf(plain))
      && ResolveTemplate(1, "A1", [], []) == None
  {
    var direct := AsinTemplate(1, 1, "A1", "asin subject", "asin body", Some(10));
    var pointing := AsinTemplate(1, 1, "A1", "", "", Some(10));
    var referenced := EmailTemplate(10, 1, "ref subject", "ref body", false);
    var default := EmailTemplate(11, 1, "default subject", "default body", true);
    var plain := EmailTemplate(12, 1, "plain subject", "plain body", false);
    assert IsFirst([direct], OwnAsinTemplate(1, "A1"), 0);
    assert IsFirst([pointing], OwnAsinTemplate(1, "A1"), 0);
    assert IsFirst([plain, referenced, default], WithId(10), 1);
    assert IsFirst([plain, default], OwnDefault(1), 1);
    assert IsFirst([plain, referenced], OwnedBy(1), 0);
  }

  /** A `template_id` of 0 is falsy: the ASIN template without text of its
      own falls through to the seller's default even when a template with id
      0 exists. */
  lemma ZeroReferenceFallsThrough()
    ensures
      var pointing := AsinTemplate(1, 1, "A1", "", "", Some(0));
      var zero := EmailTemplate(0, 1, "zero subject", "zero body", false);
      var default := EmailTemplate(11, 1, "default subject", "default body", true);
      ResolveTemplate(1, "A1", [pointing], [zero, default]) == Some(TextOf(default))
  {
    var pointing := AsinTemplate(1, 1, "A1", "", "", Some(0));
    var zero := EmailTemplate(0, 1, "zero subject", "zero body", false);
    var default := EmailTemplate(11, 1, "default subject", "default body", true);
    assert IsFirst([pointing], OwnAsinTemplate(1, "A1"), 0);
    assert IsFirst([zero, default], OwnDefault(1), 1);
  }
}
