/** The routing tables of the ticket pipeline: the closed map from category key to the
    spreadsheet tab that receives its rows, and the ordered five-level urgency scale. */
module Config {

  const CategoryToSheet: map<string, string> := map[
    "probleme_technique" := "Problème technique informatique",
    "demande_administrative" := "Demande administrative",
    "probleme_acces_auth" := "Problème d’accès / authentification",
    "support_utilisateur" := "Demande de support utilisateur",
    // there is no dedicated tab for bugs: they share the technical-problem tab
    "bug_service" := "Problème technique informatique"
  ]

  /** Urgency levels from least to most severe. */
  const UrgencyLevels: seq<string> := ["Anodine", "Faible", "Modérée", "Élevée", "Critique"]

  /** The category substituted for an unknown one. */
  const DefaultCategory: string := "support_utilisateur"

  /** The urgency substituted for an unknown one. */
  const DefaultUrgency: string := "Modérée"

  /** The map has exactly the five category keys. */
  lemma CategoryKeys()
    ensures CategoryToSheet.Keys == {"probleme_technique", "demande_administrative",
                                     "probleme_acces_auth", "support_utilisateur", "bug_service"}
    ensures |CategoryToSheet| == 5
  {
  }

  /** Bugs and technical problems go to one tab, so five categories reach four tabs. */
  lemma SharedTechnicalSheet()
    ensures CategoryToSheet["bug_service"] == CategoryToSheet["probleme_technique"]
                                            == "Problème technique informatique"
    ensures CategoryToSheet.Values == {"Problème technique informatique", "Demande administrative",
                                       "Problème d’accès / authentification",
                                       "Demande de support utilisateur"}
    ensures |CategoryToSheet.Values| == 4
  {
    var tabs := {"Problème technique informatique", "Demande administrative",
                 "Problème d’accès / authentification", "Demande de support utilisateur"};
    forall v | v in CategoryToSheet.Values ensures v in tabs {
      var k :| k in CategoryToSheet && CategoryToSheet[k] == v;
    }
    assert CategoryToSheet["probleme_technique"] in CategoryToSheet.Values;
    assert CategoryToSheet["demande_administrative"] in CategoryToSheet.Values;
    assert CategoryToSheet["probleme_acces_auth"] in CategoryToSheet.Values;
    assert CategoryToSheet["support_utilisateur"] in CategoryToSheet.Values;
  }

  /** Five distinct urgency levels, in the order Anodine < Faible < Modérée < Élevée < Critique. */
  lemma UrgencyLevelsDistinct()
    ensures |UrgencyLevels| == 5
    ensures UrgencyLevels[0] == "Anodine" && UrgencyLevels[1] == "Faible" && UrgencyLevels[2] == "Modérée"
         && UrgencyLevels[3] == "Élevée" && UrgencyLevels[4] == "Critique"
    ensures forall i, j | 0 <= i < j < |UrgencyLevels| :: UrgencyLevels[i] != UrgencyLevels[j]
  {
  }

  /** The fallbacks of the normaliser lie inside the closed sets. */
  lemma DefaultsValid()
    ensures DefaultCategory in CategoryToSheet
    ensures DefaultUrgency in UrgencyLevels
  {
  }
}
