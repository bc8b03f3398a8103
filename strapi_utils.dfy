/** `mapPluginName` (src/strapi-utils.ts): the prefix that the current
    generator puts in front of the display name of a collection that comes
    from a plugin. */
module StrapiUtils {
  import opened StrapiTypes

  function MapPluginName(plugin: Option<string>): (prefix: string)
    ensures prefix == "" || prefix == "Strapi" || prefix == "Admin" || prefix == "I18N"
    ensures prefix != "" <==> plugin in {Some("upload"), Some("admin"), Some("i18n")}
  {
    match plugin
    case Some("upload") => "Strapi"
    case Some("admin") => "Admin"
    case Some("i18n") => "I18N"
    case _ => ""
  }

  /** The lookup table itself: `users-permissions`, any unknown plugin and a
      missing plugin all get no prefix. */
  lemma MapPluginNameTable(other: string)
    requires other !in {"upload", "admin", "i18n"}
    ensures MapPluginName(Some("users-permissions")) == ""
    ensures MapPluginName(Some("upload")) == "Strapi"
    ensures MapPluginName(Some("admin")) == "Admin"
    ensures MapPluginName(Some("i18n")) == "I18N"
    ensures MapPluginName(Some(other)) == ""
    ensures MapPluginName(None) == ""
  {
  }

  /** No prefix contains a space or a hyphen, so it survives space removal and
      never by itself forces the plural name to be quoted. */
  lemma PrefixIsPlainWord(plugin: Option<string>)
    ensures ' ' !in MapPluginName(plugin) && '-' !in MapPluginName(plugin)
  {
  }
}
