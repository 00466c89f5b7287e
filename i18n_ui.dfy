/** The site's translation tables: the languages, the routes, the navigation
    links and the interface strings. They are constants; the lemmas state the
    facts about them that the path helpers rely on. */
module I18nUi {
  import opened Text

  const DefaultLang := "en"

  /** `languages`: the language codes and their display names. */
  function Languages(): (m: map<string, string>)
    ensures m.Keys == {"en", "es"} && DefaultLang in m
  {
    map["en" := "English", "es" := "Español"]
  }

  /** `routes`: the translated name of each route, per language. */
  function Routes(): (m: map<string, map<string, string>>)
    ensures m.Keys == Languages().Keys
    ensures "interledger-universe" in m["en"] && m["en"]["interledger-universe"] == "interledger-universe"
    ensures "interledger-universe" in m["es"] && m["es"]["interledger-universe"] == "el-universo-interledger"
  {
    map["en" := map["interledger-universe" := "interledger-universe"],
        "es" := map["interledger-universe" := "el-universo-interledger"]]
  }

  /** A navigation link: by its type it has an href in both languages. */
  datatype NavLink = NavLink(en: string, es: string)

  /** `navigationItems`. */
  function NavigationItems(): map<string, NavLink> {
    map[
      "ilf" := NavLink("/", "/es"),
      "developers" := NavLink("/developers", "/developers/es"),
      "about" := NavLink("/about-us", "/es/sobre-nosotros"),
      "policy" := NavLink("/policy-and-advocacy", "/es/politica-y-defensa"),
      "team" := NavLink("/team", "/es/equipo"),
      "media" := NavLink("/press", "/es/medios"),
      "overview" := NavLink("/open-standards", "/es/estandares-abiertos"),
      "interledger" := NavLink("/interledger", "/es/interledger"),
      "open-payments" := NavLink("/open-payments", "/es/open-payments"),
      "web-monetization" := NavLink("/web-monetization", "/es/web-monetization"),
      "join" := NavLink("/join-network", "/es/unase-la-red"),
      "financial-services" := NavLink("/financial-services", "/es/servicios-financieros-digitales"),
      "education" := NavLink("/education", "/es/educacion"),
      "ambassadors" := NavLink("/ambassadors", "/es/embajadores"),
      "foundation-blog" := NavLink("/blog", "/es/blog"),
      "tech-blog" := NavLink("/developers/blog", "/developers/es/blog"),
      "podcast" := NavLink("/podcast", "/es/podcast"),
      "community-forum" := NavLink("https://community.interledger.org/", "https://community.interledger.org/"),
      "get-involved" := NavLink("/get-involved", "/es/involucrese"),
      "events" := NavLink("/events", "/es/eventos"),
      "guidelines" := NavLink("/participation-guidelines", "/es/pautas-de-participacion"),
      "summit" := NavLink("/summit", "/es/summit"),
      "subscribe" := NavLink("/subscribe", "/es/suscribase"),
      "contact" := NavLink("/contact", "/es/contacto")
    ]
  }

  /** The English interface strings, `ui.en`, in the order the literal lists them. */
  function EnStrings(): seq<(string, string)> {
    EnNav() + EnFooter() + EnBlog() + EnTag()
  }

  function EnNav(): seq<(string, string)> {
    EnNavFoundation() + EnNavTechnology() + EnNavResources() + EnNavBlogs() + EnNavParticipate()
  }

  function EnNavFoundation(): seq<(string, string)> {
    [
      ("nav.foundation", "Foundation"),
      ("nav.about", "About Us"),
      ("nav.policy", "Policy & Advocacy"),
      ("nav.team", "Team"),
      ("nav.media", "Media")
    ]
  }

  function EnNavTechnology(): seq<(string, string)> {
    [
      ("nav.technology", "Technology"),
      ("nav.overview", "Overview"),
      ("nav.interledger", "Interledger"),
      ("nav.open-payments", "Open Payments"),
      ("nav.web-monetization", "Web Monetization"),
      ("nav.join", "Join The Network"),
      ("nav.developers", "Developers Portal"),
      ("nav.grants", "Grants")
    ]
  }

  function EnNavResources(): seq<(string, string)> {
    [
      ("nav.financial-services", "Financial Services"),
      ("nav.education", "Education"),
      ("nav.ambassadors", "Ambassadors"),
      ("nav.content-hub", "Content Hub")
    ]
  }

  function EnTechBlogDescription(): string {
    "Hear stories and experiences from the team who is working on making Interledger, the interoperable global payments network, a reality."
  }

  function EnNavBlogs(): seq<(string, string)> {
    [
      ("nav.foundation-blog", "Foundation Blog"),
      ("nav.tech-blog", "Tech Blog"),
      ("nav.tech-blog-description", EnTechBlogDescription()),
      ("nav.podcast", "Podcast"),
      ("nav.community-forum", "Community Forum")
    ]
  }

  function EnNavParticipate(): seq<(string, string)> {
    [
      ("nav.participate", "Participate"),
      ("nav.get-involved", "Get Involved"),
      ("nav.events", "Events"),
      ("nav.guidelines", "Guidelines"),
      ("nav.summit", "Interledger Summit")
    ]
  }

  function EnFooter(): seq<(string, string)> {
    [
      ("footer.mailing-list", "Join our mailing list"),
      ("footer.subscribe", "Subscribe"),
      ("footer.connect", "Connect with us"),
      ("footer.copyright", "All rights reserved."),
      ("footer.terms", "Terms of Service"),
      ("footer.privacy", "Privacy Policy"),
      ("footer.contact", "Contact Us")
    ]
  }

  function EnBlog(): seq<(string, string)> {
    [
      ("blog.tech-blog-title", "Engineering Blog"),
      ("blog.check-updates", "Check out Foundation updates"),
      ("blog.filter", "Filter by tag"),
      ("blog.written-by", "Written by")
    ]
  }

  function EnTag(): seq<(string, string)> {
    [
      ("tag.all", "All"),
      ("tag.interledger-protocol", "Interledger Protocol"),
      ("tag.open-payments", "Open Payments"),
      ("tag.rafiki", "Rafiki"),
      ("tag.releases", "Releases"),
      ("tag.updates", "Updates"),
      ("tag.web-monetization", "Web Monetization")
    ]
  }

  /** The Spanish interface strings, `ui.es`, in the order the literal lists them. */
  function EsStrings(): seq<(string, string)> {
    EsNav() + EsFooter() + EsBlog() + EsTag()
  }

  function EsNav(): seq<(string, string)> {
    EsNavFoundation() + EsNavTechnology() + EsNavResources() + EsNavBlogs() + EsNavParticipate()
  }

  function EsNavFoundation(): seq<(string, string)> {
    [
      ("nav.foundation", "Fundación"),
      ("nav.about", "Sobre Nosotros"),
      ("nav.policy", "Políticas y defensa pública"),
      ("nav.team", "Equipo"),
      ("nav.media", "Medios")
    ]
  }

  function EsNavTechnology(): seq<(string, string)> {
    [
      ("nav.technology", "Tecnología"),
      ("nav.overview", "Estándares abiertos"),
      ("nav.interledger", "Interledger"),
      ("nav.open-payments", "Open Payments"),
      ("nav.web-monetization", "Web Monetization"),
      ("nav.join", "Únete a la Red"),
      ("nav.developers", "Portal de Desarrolladores"),
      ("nav.grants", "Subvenciones")
    ]
  }

  function EsNavResources(): seq<(string, string)> {
    [
      ("nav.financial-services", "Servicios Financieros"),
      ("nav.education", "Educación"),
      ("nav.ambassadors", "Embajadores"),
      ("nav.content-hub", "Centro de Contenido")
    ]
  }

  function EsTechBlogDescription(): string {
    "Escucha historias y experiencias del equipo que está trabajando en hacer de Interledger, la red de pagos interoperable global, una realidad."
  }

  function EsNavBlogs(): seq<(string, string)> {
    [
      ("nav.foundation-blog", "Blog de la Fundación"),
      ("nav.tech-blog", "Blog Tecnológico"),
      ("nav.tech-blog-description", EsTechBlogDescription()),
      ("nav.podcast", "Podcast"),
      ("nav.community-forum", "Community Forum")
    ]
  }

  function EsNavParticipate(): seq<(string, string)> {
    [
      ("nav.participate", "Participa"),
      ("nav.get-involved", "Involúcrate"),
      ("nav.events", "Eventos"),
      ("nav.guidelines", "Guías"),
      ("nav.summit", "Cumbre Interledger")
    ]
  }

  function EsFooter(): seq<(string, string)> {
    [
      ("footer.mailing-list", "Únete a nuestra lista de correo"),
      ("footer.subscribe", "Suscribirse"),
      ("footer.connect", "Conéctate con nosotros"),
      ("footer.copyright", "Todos los derechos reservados."),
      ("footer.terms", "Condiciones del servicio"),
      ("footer.privacy", "Política de privacidad"),
      ("footer.contact", "Contáctanos")
    ]
  }

  function EsBlog(): seq<(string, string)> {
    [
      ("blog.tech-blog-title", "Blog de Ingeniería"),
      ("blog.check-updates", "Actualizaciones de la Fundación"),
      ("blog.filter", "Filtre por etiquetas"),
      ("blog.written-by", "Escrito por")
    ]
  }

  function EsTag(): seq<(string, string)> {
    [
      ("tag.all", "Todas"),
      ("tag.interledger-protocol", "Interledger Protocol"),
      ("tag.open-payments", "Open Payments"),
      ("tag.rafiki", "Rafiki"),
      ("tag.releases", "Lanzamientos"),
      ("tag.updates", "Actualizaciones"),
      ("tag.web-monetization", "Web Monetization")
    ]
  }

  /** The links that the path helpers are checked against. */
  lemma PortalLinks()
    ensures "developers" in NavigationItems() && NavigationItems()["developers"] == NavLink("/developers", "/developers/es")
    ensures "tech-blog" in NavigationItems() && NavigationItems()["tech-blog"] == NavLink("/developers/blog", "/developers/es/blog")
    ensures "community-forum" in NavigationItems()
      && NavigationItems()["community-forum"] == NavLink("https://community.interledger.org/", "https://community.interledger.org/")
  {
  }

  /** `ui[lang]`: the interface strings of one language, as the object
      literal lists them. */
  function Strings(lang: string): seq<(string, string)>
    requires lang in Languages()
  {
    if lang == "en" then EnStrings() else EsStrings()
  }

  /** The keys of a string table, in order. */
  function Keys(t: seq<(string, string)>): (ks: seq<string>)
    ensures |ks| == |t| && forall i :: 0 <= i < |t| ==> ks[i] == t[i].0
  {
    seq(|t|, i requires 0 <= i < |t| => t[i].0)
  }

  lemma KeysAppend(a: seq<(string, string)>, b: seq<(string, string)>)
    ensures Keys(a + b) == Keys(a) + Keys(b)
  {
  }

  lemma NavFoundationKeysAgree() ensures Keys(EnNavFoundation()) == Keys(EsNavFoundation()) {}
  lemma NavTechnologyKeysAgree() ensures Keys(EnNavTechnology()) == Keys(EsNavTechnology()) {}
  lemma NavResourcesKeysAgree() ensures Keys(EnNavResources()) == Keys(EsNavResources()) {}
  lemma NavBlogsKeysAgree() ensures Keys(EnNavBlogs()) == Keys(EsNavBlogs()) {
    hide EnTechBlogDescription, EsTechBlogDescription;
  }
  lemma NavParticipateKeysAgree() ensures Keys(EnNavParticipate()) == Keys(EsNavParticipate()) {}

  lemma NavKeysAgree()
    ensures Keys(EnNav()) == Keys(EsNav())
  {
    NavFoundationKeysAgree();
    NavTechnologyKeysAgree();
    NavResourcesKeysAgree();
    NavBlogsKeysAgree();
    NavParticipateKeysAgree();
    hide EnNavFoundation, EsNavFoundation, EnNavTechnology, EsNavTechnology;
    hide EnNavResources, EsNavResources, EnNavBlogs, EsNavBlogs, EnNavParticipate, EsNavParticipate;
    KeysAppend(EnNavFoundation(), EnNavTechnology());
    KeysAppend(EnNavFoundation() + EnNavTechnology(), EnNavResources());
    KeysAppend(EnNavFoundation() + EnNavTechnology() + EnNavResources(), EnNavBlogs());
    KeysAppend(EnNavFoundation() + EnNavTechnology() + EnNavResources() + EnNavBlogs(), EnNavParticipate());
    KeysAppend(EsNavFoundation(), EsNavTechnology());
    KeysAppend(EsNavFoundation() + EsNavTechnology(), EsNavResources());
    KeysAppend(EsNavFoundation() + EsNavTechnology() + EsNavResources(), EsNavBlogs());
    KeysAppend(EsNavFoundation() + EsNavTechnology() + EsNavResources() + EsNavBlogs(), EsNavParticipate());
  }
  lemma FooterKeysAgree() ensures Keys(EnFooter()) == Keys(EsFooter()) {}
  lemma BlogKeysAgree() ensures Keys(EnBlog()) == Keys(EsBlog()) {}
  lemma TagKeysAgree() ensures Keys(EnTag()) == Keys(EsTag()) {}

  /** Both languages define the same interface strings, in the same order. */
  lemma UiKeysAgree()
    ensures Keys(EnStrings()) == Keys(EsStrings())
  {
    NavKeysAgree();
    FooterKeysAgree();
    BlogKeysAgree();
    TagKeysAgree();
    hide EnNav, EsNav, EnFooter, EsFooter, EnBlog, EsBlog, EnTag, EsTag;
    KeysAppend(EnNav(), EnFooter());
    KeysAppend(EnNav() + EnFooter(), EnBlog());
    KeysAppend(EnNav() + EnFooter() + EnBlog(), EnTag());
    KeysAppend(EsNav(), EsFooter());
    KeysAppend(EsNav() + EsFooter(), EsBlog());
    KeysAppend(EsNav() + EsFooter() + EsBlog(), EsTag());
  }

  /** `table[key]` for an object literal given as its list of entries: the
      last entry with that key wins, as in a literal with a repeated key. */
  function Lookup(t: seq<(string, string)>, key: string): (v: Option<string>)
    ensures v.Some? <==> key in Keys(t)
    ensures v.Some? ==> (key, v.value) in t
  {
    if |t| == 0 then None
    else if t[|t| - 1].0 == key then Some(t[|t| - 1].1)
    else
      var v := Lookup(t[..|t| - 1], key);
      assert Keys(t[..|t| - 1]) == Keys(t)[..|t| - 1];
      assert Keys(t) == Keys(t[..|t| - 1]) + [t[|t| - 1].0];
      v
  }
}
